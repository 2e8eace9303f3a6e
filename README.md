# Mockit signup widget, modelled in Dafny

The model covers the client-side signup widget of the Mockit landing page, `work/mockit/js/application.js`. It has three parts:

- **Validation** (`validation.dfy`) is the email check `Validation.email`. It tests the address against the anchored regular expression `/^[a-zA-Z0-9._-]+@[a-zA-Z0-9.-]+\.[a-zA-Z]{2,4}$/`.
  - The pattern is stated declaratively: some position for the `@` and for the `\.` makes the three runs fit their character classes.
  - The check itself is a scanner. It takes the first `@`, then the last `.` after it, and checks the local, domain and suffix runs.
  - The two are proved to accept exactly the same strings.
  - The regular expression's looser acceptances are reproduced and proved: `a@..co`, `a.@b.co` and `a@-.co` are all accepted.
- **ShareTemplates** (`share_templates.dfy`) holds the three share-button snippets (Twitter, Facebook, LinkedIn) and Mustache's substitution of `{{url}}`.
  - Each snippet is stored as the text before and after its one tag. The pieces are joined character for character into the literal of the source.
  - Each snippet is proved to hold the tag exactly once, with no other `{{` anywhere.
  - Rendering is proved to put the value in that one place and leave the rest of the snippet unchanged.
- **Signup** (`signup.dfy`) is `setup_signup` with `render_social_links` and `animate_page_transition`.
  - It is a class whose fields are the page elements the widget writes: the button label, the title, the subtitle, the referral-link text and the three share slots. Further fields hold the alerts shown, the addresses posted, the number of answers received, and whether the page has switched to the post-signup panel.
  - `Click` is the button's click handler and `OnResponse` is the callback run on the server's answer.
  - The invariant `Valid` holds on every step:
    - every posted address matches the pattern;
    - once an address has been posted, the button reads "wait...";
    - once the panel is shown, its title is one of the two thank-you titles, its subtitle is the fixed notice, and every share slot holds its template filled with the escaped referral link.

Two facts about the code shape the model:
- **Escaping.** Mustache HTML-escapes the value it writes through the double-brace tag `{{url}}` (lines 61 and 66-68). So the share slots receive the escaped link, while the referral text receives it verbatim through `.text` (line 65). The escaping function is a parameter of the page (`escape`), because Mustache is not part of this model.
- **Failed requests.** The code registers no handler for a request that fails (line 6 passes only a success callback to `$.post`). So no network-error path is modelled.

## Model

| member | source | states |
|---|---|---|
| Validation.MatchesAt | work/mockit/js/application.js:16 | The regular expression with both anchors: a `@` at `at` and a `.` at `dot`, with a non-empty run of `[a-zA-Z0-9._-]` before the `@`, a non-empty run of `[a-zA-Z0-9.-]` between them, and two to four letters to the end. |
| Validation.MatchesEmailPattern | work/mockit/js/application.js:16 | The regular expression matches the string under some placement of its `@` and `\.`. |
| Validation.IsValidEmail | work/mockit/js/application.js:18-20 | The scanner's verdict: the first `@`, then the last `.` after it, cut the string into runs that fit their classes. |
| Validation.Parse | work/mockit/js/application.js:16 | When the scanner accepts a string, the three runs it cuts are well formed for their classes and rebuild exactly the input. |
| Validation.ParseText | work/mockit/js/application.js:16 | Every address built from well-formed runs is accepted and cut back into exactly those runs (round trip). |
| Validation.ValidEmailMatches | work/mockit/js/application.js:16 | Whatever the scanner accepts matches the regular expression. |
| Validation.MatchesValidEmail | work/mockit/js/application.js:16 | Whatever the regular expression matches is accepted by the scanner. |
| Validation.ValidEmailMatchesPattern | work/mockit/js/application.js:16-19 | The scanner accepts a string if and only if the anchored regular expression matches it. |
| Validation.Email | work/mockit/js/application.js:18-20 | `Validation.email(address)` returns true exactly when the regular expression matches the address. |
| Validation.OneAt | work/mockit/js/application.js:16 | The text of a well-formed address holds exactly one `@`. |
| Validation.AcceptedShape | work/mockit/js/application.js:16 | Any accepted address has exactly one `@` and at least six characters, and ends in a `.` followed by two to four letters. |
| Validation.RejectsWithoutAt | work/mockit/js/application.js:16 | A string without `@`, the empty string included, is rejected. |
| Validation.DotDomainAccepted | work/mockit/js/application.js:16 | `a@..co` is accepted, with `.` as its domain. |
| Validation.DotBeforeAtAccepted | work/mockit/js/application.js:16 | `a.@b.co` is accepted, with the local part ending in `.`. |
| Validation.HyphenDomainAccepted | work/mockit/js/application.js:16 | `a@-.co` is accepted, with `-` as its domain. |
| Validation.NoAtRejected | work/mockit/js/application.js:16 | The empty string and `not-an-email` are rejected. |
| Validation.ShortRejected | work/mockit/js/application.js:16 | `a@b.c`, `@b.co` and `a@.co` are rejected: a run is too short or missing. |
| Validation.LongSuffixRejected | work/mockit/js/application.js:16 | `a@b.museum` is rejected: the suffix is longer than four letters. |
| Validation.TwoAtsRejected | work/mockit/js/application.js:16 | `a@b@c.co` is rejected: only one `@` is allowed. |
| ShareTemplates.RenderTagFree | work/mockit/js/application.js:61-68 | Text without `{{` renders as itself and holds no tag. |
| ShareTemplates.Render | work/mockit/js/application.js:61 | `Mustache.to_html` on the `{{url}}` tag: every tag is replaced by the value, scanning from the left, and all other text is copied. |
| ShareTemplates.RenderTagItself | work/mockit/js/application.js:61 | Rendering with the tag itself as the value gives back the text unchanged. |
| ShareTemplates.SkipClear | work/mockit/js/application.js:61-68 | Rendering copies a prefix that holds no tag and does not end in `{` through unchanged. |
| ShareTemplates.CountClear | work/mockit/js/application.js:61-68 | Such a prefix adds no tag to the text it precedes. |
| ShareTemplates.RenderAround | work/mockit/js/application.js:61-68 | One tag between such a prefix and tag-free text is the only tag, and rendering replaces it with the value. |
| ShareTemplates.RenderTagged | work/mockit/js/application.js:61-68 | A tag followed by tag-free text renders as the value followed by that text, and holds one tag. |
| ShareTemplates.RenderTemplate | work/mockit/js/application.js:24-26 | A well-formed template holds its tag exactly once, and rendering it yields the text before the tag, then the value, then the text after. |
| ShareTemplates.RenderIdempotent | work/mockit/js/application.js:61-68 | Rendering a rendered template again with a tag-free value changes nothing. |
| ShareTemplates.JoinClear | work/mockit/js/application.js:24-26 | Tag-free text that does not end in `{`, followed by tag-free text, is tag-free: no tag forms across the seam. |
| ShareTemplates.ConcatClear | work/mockit/js/application.js:24-26 | Joining pieces that are each tag-free and do not end in `{` gives tag-free text. |
| ShareTemplates.Twitter | work/mockit/js/application.js:24 | `ShareTemplates.twitter`: its pieces join, with `{{url}}` between the two parts, into the 226-character literal. |
| ShareTemplates.Facebook | work/mockit/js/application.js:25 | `ShareTemplates.facebook`: its pieces join, with `{{url}}` between the two parts, into the 595-character literal. |
| ShareTemplates.Linkedin | work/mockit/js/application.js:26 | `ShareTemplates.linkedin`: its pieces join, with `{{url}}` between the two parts, into the 134-character literal. |
| ShareTemplates.Standard | work/mockit/js/application.js:23-27 | The `ShareTemplates` object: the three templates by network. |
| ShareTemplates.TwitterWellFormed | work/mockit/js/application.js:24 | The Twitter snippet holds `{{url}}` once and no other `{{`. |
| ShareTemplates.FacebookWellFormed | work/mockit/js/application.js:25 | The Facebook snippet holds `{{url}}` once and no other `{{`, although its script contains single braces. |
| ShareTemplates.LinkedinWellFormed | work/mockit/js/application.js:26 | The LinkedIn snippet holds `{{url}}` once and no other `{{`. |
| ShareTemplates.StandardWellFormed | work/mockit/js/application.js:23-27 | All three templates of the `ShareTemplates` object are well formed. |
| Signup.SignupPage.constructor | work/mockit/js/application.js:70-71 | The page before any click: nothing posted, alerted or answered, the share slots empty, and the invariant established. |
| Signup.SignupPage.Click | work/mockit/js/application.js:71-79 | A rejected address adds the alert "Your email was invalid, typo?" and changes nothing else. An accepted address is posted once and the button reads "wait...". The invariant is kept. |
| Signup.SignupPage.OnResponse | work/mockit/js/application.js:80-90 | On exact status "success" or "registered", the panel is shown with the title "Thanks for signing up" or "You already signed up" and share slots for the returned link. On any other status, only `msg` is alerted. The button keeps reading "wait..." either way, since a post follows that label, and the invariant is kept. |
| Signup.SignupPage.RenderSocialLinks | work/mockit/js/application.js:59-69 | The referral text is the link verbatim. Each share slot is its template rendered with the escaped link, and therefore holds that template filled at its one tag. Nothing else changes. |
| Signup.SignupPage.AnimatePageTransition | work/mockit/js/application.js:52-58 | The post-signup panel is shown, with the given title and the fixed subtitle. Nothing else changes. |

## Left out

- The door, form and support animations and their timers (`animate`, `show_form`, the `$(document).ready` start-up at lines 28-51 and 93-110) are left out: they only move and fade elements over time. `animate_page_transition` keeps only its end state: the panel is shown, and the title and subtitle are set. The fade durations are not modelled.
- `time_visible` (line 95) is left out: it is assigned and never read.
- `postForm` (lines 2-11) is left out: the form serialisation and the HTTP POST are I/O. A click that passes the check records the address in `posted`, and the server's answer comes back later through `OnResponse`.
- A request that never completes, or fails at the network level, is not modelled, because the code registers no handler for it.
- Mustache's parsing of tags other than `{{url}}` is not modelled. `ShareTemplates.Render` replaces every `{{url}}`, scanning from the left, which is all these templates use. HTML escaping is the page's `escape` parameter, not a definition.
- Signup.SignupPage.constructor: the page takes its template set as a parameter and requires it to be well formed. The page as loaded is built with `ShareTemplates.Standard`, which `ShareTemplates.StandardWellFormed` shows qualifies.
- Signup.SignupPage.constructor: the referral text and the three share slots start empty, and `Valid` keeps them empty until the panel is shown. The page's HTML is not part of this model, so this is an assumption about it.
- Signup.SignupPage.OnResponse: requires an outstanding request (`answered < |posted|`). The callback runs only after a post, and the model does not pair an answer with the request it belongs to.
- Signup.SignupPage.Click: may be called after the panel is shown. The source hides the form then but does not disable the handler.
- Values that JavaScript could leave undefined are modelled as strings: the email field's value, `referral_link` and `msg`.
- Strings are sequences of Dafny `char`, not JavaScript UTF-16 code units.
- `create_post.rb` is not part of this model: it belongs to the blog, not to the widget.
