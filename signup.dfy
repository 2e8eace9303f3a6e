/**
 * The signup widget of work/mockit/js/application.js (`setup_signup`,
 * `render_social_links`, `animate_page_transition`): the page elements it
 * writes to are the fields of one object, and the click handler and the
 * server's answer are its methods.
 *
 * The request itself is not modelled: a click on a valid address records the
 * address as posted, and the answer arrives later through `OnResponse`.
 */
module Signup {
  import V = Validation
  import T = ShareTemplates

  const InvalidEmailAlert := "Your email was invalid, typo?"
  const Waiting := "wait..."
  const ThanksTitle := "Thanks for signing up"
  const AlreadyTitle := "You already signed up"
  const NotifySubtitle := "We'll notify you soon. Want in faster? Invite your friends with the link below, if they signup, you move faster in line"

  /** The fields of the server's JSON answer that the widget reads. */
  datatype Response = Response(status: string, referralLink: string, msg: string)

  class SignupPage {
    /** Text of `#signup-button`. */
    var buttonLabel: string
    /** Text of `#title` and `#subtitle`. */
    var title: string
    var subtitle: string
    /** Text of `#referral-link`. */
    var referralLink: string
    /** Markup of `#twitter-share`, `#linkedin-share` and `#facebook-share`. */
    var twitterShare: string
    var linkedinShare: string
    var facebookShare: string
    /** Every message shown with `alert`, oldest first. */
    var alerts: seq<string>
    /** Every address sent to the server, oldest first. */
    var posted: seq<string>
    /** How many of those requests have been answered. */
    var answered: nat
    /** Whether the signup form has given way to the post-signup panel. */
    var transitioned: bool
    /** Mustache's HTML escaping of a value written through `{{url}}`. */
    const escape: string -> string
    /** The share templates the buttons are rendered from. */
    const templates: T.Catalog

    /** The share panel shows `link`: verbatim as text, escaped in each button. */
    ghost predicate Shows(link: string)
      reads this
    {
      referralLink == link &&
      twitterShare == templates.twitter.Fill(escape(link)) &&
      linkedinShare == templates.linkedin.Fill(escape(link)) &&
      facebookShare == templates.facebook.Fill(escape(link))
    }

    ghost predicate Valid()
      reads this
    {
      templates.WellFormed() &&
      answered <= |posted| &&
      (|posted| > 0 ==> buttonLabel == Waiting) &&
      (forall i :: 0 <= i < |posted| ==> V.MatchesEmailPattern(posted[i])) &&
      (transitioned ==>
        subtitle == NotifySubtitle &&
        (title == ThanksTitle || title == AlreadyTitle) &&
        Shows(referralLink)) &&
      (!transitioned ==>
        referralLink == "" && twitterShare == "" && linkedinShare == "" && facebookShare == "")
    }

    /** The page as loaded, before anything was clicked. */
    constructor (label0: string, title0: string, subtitle0: string, escape0: string -> string,
                 templates0: T.Catalog)
      requires templates0.WellFormed()
      ensures Valid()
      ensures buttonLabel == label0 && title == title0 && subtitle == subtitle0 && escape == escape0
      ensures templates == templates0
      ensures referralLink == "" && twitterShare == "" && linkedinShare == "" && facebookShare == ""
      ensures alerts == [] && posted == [] && answered == 0 && !transitioned
    {
      buttonLabel, title, subtitle := label0, title0, subtitle0;
      referralLink, twitterShare, linkedinShare, facebookShare := "", "", "", "";
      alerts, posted, answered, transitioned := [], [], 0, false;
      escape := escape0;
      templates := templates0;
    }

    /**
     * A click on the signup button with `email` in the address field: an
     * address the pattern refuses only raises the alert; any other is posted
     * and the button reads "wait...".
     */
    method Click(email: string)
      requires Valid()
      modifies this
      ensures Valid()
      ensures !V.MatchesEmailPattern(email) ==>
        alerts == old(alerts) + [InvalidEmailAlert] && posted == old(posted) &&
        buttonLabel == old(buttonLabel)
      ensures V.MatchesEmailPattern(email) ==>
        alerts == old(alerts) && posted == old(posted) + [email] && buttonLabel == Waiting
      ensures title == old(title) && subtitle == old(subtitle) && referralLink == old(referralLink)
      ensures twitterShare == old(twitterShare) && linkedinShare == old(linkedinShare)
      ensures facebookShare == old(facebookShare)
      ensures answered == old(answered) && transitioned == old(transitioned)
    {
      var ok := V.Email(email);
      if !ok {
        alerts := alerts + [InvalidEmailAlert];
        return;
      }
      buttonLabel := Waiting;
      posted := posted + [email];
    }

    /**
     * The server's answer to one of the posted addresses: "success" and
     * "registered" show the share panel for the returned referral link under
     * their own title; any other status shows the server's message.
     */
    method OnResponse(response: Response)
      requires Valid() && answered < |posted|
      modifies this
      ensures Valid()
      ensures answered == old(answered) + 1
      ensures response.status == "success" ==>
        transitioned && title == ThanksTitle && Shows(response.referralLink) &&
        alerts == old(alerts)
      ensures response.status == "registered" ==>
        transitioned && title == AlreadyTitle && Shows(response.referralLink) &&
        alerts == old(alerts)
      ensures response.status != "success" && response.status != "registered" ==>
        alerts == old(alerts) + [response.msg] &&
        transitioned == old(transitioned) && title == old(title) && subtitle == old(subtitle) &&
        referralLink == old(referralLink) && twitterShare == old(twitterShare) &&
        linkedinShare == old(linkedinShare) && facebookShare == old(facebookShare)
      ensures old(transitioned) ==> transitioned
      ensures buttonLabel == Waiting
      ensures buttonLabel == old(buttonLabel) && posted == old(posted)
    {
      if response.status == "success" {
        RenderSocialLinks(response.referralLink);
        AnimatePageTransition(ThanksTitle);
      } else if response.status == "registered" {
        RenderSocialLinks(response.referralLink);
        AnimatePageTransition(AlreadyTitle);
      } else {
        alerts := alerts + [response.msg];
      }
      answered := answered + 1;
    }

    /**
     * Writes `link` into the referral text and each template, rendered with
     * the escaped link, into its share button; each button then holds its
     * template with the escaped link in place of the tag.
     */
    method RenderSocialLinks(link: string)
      requires templates.WellFormed()
      modifies this
      ensures referralLink == link
      ensures twitterShare == T.Render(templates.twitter.Text(), escape(link))
      ensures linkedinShare == T.Render(templates.linkedin.Text(), escape(link))
      ensures facebookShare == T.Render(templates.facebook.Text(), escape(link))
      ensures Shows(link)
      ensures buttonLabel == old(buttonLabel) && title == old(title) && subtitle == old(subtitle)
      ensures alerts == old(alerts) && posted == old(posted) && answered == old(answered)
      ensures transitioned == old(transitioned)
    {
      var value := escape(link);
      referralLink := link;
      twitterShare := T.Render(templates.twitter.Text(), value);
      linkedinShare := T.Render(templates.linkedin.Text(), value);
      facebookShare := T.Render(templates.facebook.Text(), value);
      T.RenderTemplate(templates.twitter, value);
      T.RenderTemplate(templates.linkedin, value);
      T.RenderTemplate(templates.facebook, value);
    }

    /** Hides the signup form, shows the post-signup panel and its title. */
    method AnimatePageTransition(newTitle: string)
      modifies this
      ensures transitioned && title == newTitle && subtitle == NotifySubtitle
      ensures buttonLabel == old(buttonLabel) && referralLink == old(referralLink)
      ensures twitterShare == old(twitterShare) && linkedinShare == old(linkedinShare)
      ensures facebookShare == old(facebookShare)
      ensures alerts == old(alerts) && posted == old(posted) && answered == old(answered)
    {
      transitioned := true;
      title := newTitle;
      subtitle := NotifySubtitle;
    }
  }
}
