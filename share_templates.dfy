/**
 * The share templates of the signup widget (`ShareTemplates` in
 * work/mockit/js/application.js) and the Mustache rendering that fills
 * them with a referral link.
 *
 * Each template is a fixed HTML snippet holding the tag `{{url}}` once.
 * The text is kept as the pieces before and after that tag; each piece is a
 * line of the snippet or a part of one, and joining them gives the snippet
 * back character for character.
 */
module ShareTemplates {

  /** The one Mustache tag the templates use. */
  const Tag := "{{url}}"

  /** No `{{` anywhere in `s`, so no tag starts in it. */
  ghost predicate TagFree(s: string) {
    forall i :: 0 < i < |s| ==> !(s[i - 1] == '{' && s[i] == '{')
  }

  /** `s` does not end in `{`, so no tag starts across its end either. */
  predicate EndsClear(s: string) {
    s == [] || s[|s| - 1] != '{'
  }

  /** Text that holds no tag and in front of which anything may be put. */
  ghost predicate Clear(s: string) {
    TagFree(s) && EndsClear(s)
  }

  function Concat(pieces: seq<string>): string {
    if pieces == [] then "" else pieces[0] + Concat(pieces[1..])
  }

  /**
   * Mustache's rendering of `text` with `url` bound to `value` (the value
   * as Mustache writes it, that is after its HTML escaping): every tag is
   * replaced, scanning from the left.
   */
  function Render(text: string, value: string): string
    decreases |text|
  {
    if |text| < |Tag| then text
    else if text[..|Tag|] == Tag then value + Render(text[|Tag|..], value)
    else [text[0]] + Render(text[1..], value)
  }

  /** The number of places in `text` where a tag starts. */
  function TagCount(text: string): nat
    decreases |text|
  {
    if |text| < |Tag| then 0
    else (if text[..|Tag|] == Tag then 1 else 0) + TagCount(text[1..])
  }

  /** A template, cut at its tag. */
  datatype Template = Template(before: seq<string>, after: seq<string>) {

    /** The snippet as application.js writes it. */
    function Text(): string { Concat(before) + (Tag + Concat(after)) }

    /** The snippet with `value` in place of its tag. */
    function Fill(value: string): string { Concat(before) + (value + Concat(after)) }

    /** No other tag, and none made up across the seams. */
    ghost predicate WellFormed() {
      Clear(Concat(before)) && TagFree(Concat(after))
    }
  }

  // ---------------------------------------------------------------------
  // Rendering a template
  // ---------------------------------------------------------------------

  /** Writing the tag itself in place of every tag gives back the text. */
  lemma {:induction false} RenderTagItself(text: string)
    ensures Render(text, Tag) == text
    decreases |text|
  {
    if |text| >= |Tag| {
      if text[..|Tag|] == Tag {
        RenderTagItself(text[|Tag|..]);
        assert Tag + text[|Tag|..] == text;
      } else {
        RenderTagItself(text[1..]);
        assert [text[0]] + text[1..] == text;
      }
    }
  }

  /** Text without a tag renders as itself. */
  lemma {:induction false} RenderTagFree(s: string, value: string)
    requires TagFree(s)
    ensures Render(s, value) == s
    ensures TagCount(s) == 0
  {
    if |s| >= |Tag| {
      assert s[..|Tag|] != Tag by {
        assert !(s[0] == '{' && s[1] == '{');
      }
      assert TagFree(s[1..]) by {
        forall i | 0 < i < |s[1..]| ensures !(s[1..][i - 1] == '{' && s[1..][i] == '{') {
          assert s[1..][i - 1] == s[i] && s[1..][i] == s[i + 1];
        }
      }
      RenderTagFree(s[1..], value);
      assert [s[0]] + s[1..] == s;
    }
  }

  /** Dropping the first character of clear text leaves clear text. */
  lemma ClearTail(x: string)
    requires Clear(x) && x != []
    ensures Clear(x[1..])
  {
    forall i | 0 < i < |x[1..]| ensures !(x[1..][i - 1] == '{' && x[1..][i] == '{') {
      assert x[1..][i - 1] == x[i] && x[1..][i] == x[i + 1];
    }
  }

  /** No tag starts at the front of clear text, whatever follows it. */
  lemma ClearNoTagStart(x: string, rest: string)
    requires Clear(x) && x != [] && |x + rest| >= |Tag|
    ensures (x + rest)[..|Tag|] != Tag
  {
    var s := x + rest;
    if |x| >= 2 {
      assert !(x[0] == '{' && x[1] == '{');
      assert s[0] == x[0] && s[1] == x[1];
    } else {
      assert s[0] == x[0] != '{';
    }
  }

  /** A clear prefix is copied through unchanged by rendering. */
  lemma {:induction false} SkipClear(x: string, rest: string, value: string)
    requires Clear(x)
    ensures Render(x + rest, value) == x + Render(rest, value)
  {
    var s := x + rest;
    if x == [] {
      assert s == rest;
    } else if |s| < |Tag| {
      assert Render(rest, value) == rest;
    } else {
      ClearNoTagStart(x, rest);
      assert s[1..] == x[1..] + rest;
      ClearTail(x);
      SkipClear(x[1..], rest, value);
      assert [x[0]] + (x[1..] + Render(rest, value)) == x + Render(rest, value);
    }
  }

  /** A clear prefix adds no tag. */
  lemma {:induction false} CountClear(x: string, rest: string)
    requires Clear(x)
    ensures TagCount(x + rest) == TagCount(rest)
  {
    var s := x + rest;
    if x == [] {
      assert s == rest;
    } else if |s| >= |Tag| {
      ClearNoTagStart(x, rest);
      assert s[1..] == x[1..] + rest;
      ClearTail(x);
      CountClear(x[1..], rest);
    }
  }

  /** A tag followed by tag-free text renders as the value followed by that text. */
  lemma RenderTagged(a: string, value: string)
    requires TagFree(a)
    ensures Render(Tag + a, value) == value + a
    ensures TagCount(Tag + a) == 1
  {
    var tagged := Tag + a;
    assert tagged[..|Tag|] == Tag && tagged[|Tag|..] == a;
    RenderTagFree(a, value);
    assert tagged[1..] == Tag[1..] + a;
    assert Clear(Tag[1..]);
    SkipClear(Tag[1..], a, value);
    CountClear(Tag[1..], a);
  }

  /**
   * A well-formed template holds its tag exactly once, and rendering it
   * puts the value in that one place and leaves the rest of the text as it is.
   */
  lemma RenderTemplate(t: Template, value: string)
    requires t.WellFormed()
    ensures Render(t.Text(), value) == t.Fill(value)
    ensures TagCount(t.Text()) == 1
  {
    RenderAround(Concat(t.before), Concat(t.after), value);
  }

  /** One tag between clear text and tag-free text is the only tag, and is replaced. */
  lemma RenderAround(b: string, a: string, value: string)
    requires Clear(b) && TagFree(a)
    ensures Render(b + (Tag + a), value) == b + (value + a)
    ensures TagCount(b + (Tag + a)) == 1
  {
    SkipClear(b, Tag + a, value);
    CountClear(b, Tag + a);
    RenderTagged(a, value);
  }

  /** Clear text followed by tag-free text is tag-free. */
  lemma JoinClear(x: string, y: string)
    requires Clear(x) && TagFree(y)
    ensures TagFree(x + y)
    ensures EndsClear(y) ==> EndsClear(x + y)
  {
    var s := x + y;
    forall i | 0 < i < |s| ensures !(s[i - 1] == '{' && s[i] == '{') {
      if i < |x| {
        assert s[i - 1] == x[i - 1] && s[i] == x[i];
      } else if i == |x| {
        assert s[i - 1] == x[|x| - 1];
      } else {
        assert s[i - 1] == y[i - 1 - |x|] && s[i] == y[i - |x|];
      }
    }
    if y == [] {
      assert s == x;
    }
  }

  /**
   * Rendering a template again with the same value changes nothing, as long
   * as the value holds no tag and does not end in `{`.
   */
  lemma RenderIdempotent(t: Template, value: string)
    requires t.WellFormed() && Clear(value)
    ensures Render(Render(t.Text(), value), value) == Render(t.Text(), value)
  {
    RenderTemplate(t, value);
    var b, a := Concat(t.before), Concat(t.after);
    JoinClear(b, value);
    JoinClear(b + value, a);
    assert t.Fill(value) == b + value + a;
    RenderTagFree(t.Fill(value), value);
  }

  // ---------------------------------------------------------------------
  // Showing the fixed templates well formed
  // ---------------------------------------------------------------------

  /** Joined pieces that are each clear are clear. */
  lemma {:induction false} ConcatClear(pieces: seq<string>)
    requires forall k :: 0 <= k < |pieces| ==> Clear(pieces[k])
    ensures Clear(Concat(pieces))
  {
    if pieces != [] {
      ConcatClear(pieces[1..]);
      JoinClear(pieces[0], Concat(pieces[1..]));
    }
  }

  /** A piece without any `{` is clear. */
  lemma BraceFreeClear(s: string)
    requires forall i :: 0 <= i < |s| ==> s[i] != '{'
    ensures Clear(s)
  {
  }

  // ---------------------------------------------------------------------
  // The templates of application.js:24-26
  // ---------------------------------------------------------------------

  /** The Twitter button: `ShareTemplates.twitter`. */
  function Twitter(): Template {
    Template(
      [ "<a class=\"twitter-share-button\" \n",
        "   data-url=\"" ],
      [ "\"\n",
        "   href=\"https://twitter.com/share\" \n",
        "   data-count=\"none\">\n",
        "     Tweet\n",
        "</a>\n",
        "\n",
        "<script src=\"http://platform.",
        "twitter.com/widgets.js\" \n",
        "        type=\"text/javascript\">\n",
        "</script>" ])
  }

  /** The Facebook like box and its loader script: `ShareTemplates.facebook`. */
  function Facebook(): Template {
    Template(
      [ "<div id=\"fb-root\">\n",
        "  <script type=\"text/javascript\">\n",
        "    (function(d, s, id) {\n",
        "      var js, fjs = ",
        "d.getElementsByTagName(s)[0];\n",
        "      if (d.getElementById(id)) ",
        "{return;}\n",
        "      js = d.createElement(s); ",
        "js.id = id;\n",
        "      js.src = ",
        "\"http://connect.facebook.net/",
        "en_US/all.js#xfbml=1\";\n",
        "      fjs.parentNode.",
        "insertBefore(js, fjs);\n",
        "    }(document, 'script', ",
        "'facebook-jssdk'));\n",
        "  </script>\n",
        "\n",
        "  <div class=\"fb-like\" \n",
        "       data-href=\"" ],
      [ "\" \n",
        "       data-send=\"false\" \n",
        "       data-layout=\"button_count\" \n",
        "       data-width=\"300\" \n",
        "       data-show-faces=\"false\" \n",
        "       data-font=\"arial\">\n",
        "  </div>\n",
        "</div>" ])
  }

  /** The LinkedIn share button: `ShareTemplates.linkedin`. */
  function Linkedin(): Template {
    Template(
      [ "<script src=\"http://platform.",
        "linkedin.com/in.js\" ",
        "type=\"text/javascript\"></script>\n",
        "<script type=\"IN/Share\" data-url=\"" ],
      [ "\"></script>" ])
  }

  /** The opening of the Facebook loader script. */
  lemma FacebookLoaderHeadClear()
    ensures forall k | 0 <= k < 4 :: Clear(Facebook().before[k])
  {
    var ps := Facebook().before;
    BraceFreeClear(ps[0]);
    BraceFreeClear(ps[1]);
    assert Clear(ps[2]);
    BraceFreeClear(ps[3]);
  }

  /** The guard and element creation of the Facebook loader. */
  lemma FacebookLoaderGuardClear()
    ensures forall k | 4 <= k < 8 :: Clear(Facebook().before[k])
  {
    var ps := Facebook().before;
    BraceFreeClear(ps[4]);
    BraceFreeClear(ps[5]);
    assert Clear(ps[6]);
    BraceFreeClear(ps[7]);
  }

  /** The script source of the Facebook loader. */
  lemma FacebookLoaderSourceClear()
    ensures forall k | 8 <= k < 14 :: Clear(Facebook().before[k])
  {
    var ps := Facebook().before;
    BraceFreeClear(ps[8]);
    BraceFreeClear(ps[9]);
    BraceFreeClear(ps[10]);
    BraceFreeClear(ps[11]);
    BraceFreeClear(ps[12]);
    BraceFreeClear(ps[13]);
  }

  /** The end of the loader and the opening of the like box. */
  lemma FacebookLikeOpenClear()
    ensures forall k | 14 <= k < 20 :: Clear(Facebook().before[k])
  {
    var ps := Facebook().before;
    BraceFreeClear(ps[14]);
    BraceFreeClear(ps[15]);
    BraceFreeClear(ps[16]);
    BraceFreeClear(ps[17]);
    BraceFreeClear(ps[18]);
    BraceFreeClear(ps[19]);
  }

  /** The attributes and closing of the like box. */
  lemma FacebookLikeCloseClear()
    ensures forall k | 0 <= k < 8 :: Clear(Facebook().after[k])
  {
    var ps := Facebook().after;
    BraceFreeClear(ps[0]);
    BraceFreeClear(ps[1]);
    BraceFreeClear(ps[2]);
    BraceFreeClear(ps[3]);
    BraceFreeClear(ps[4]);
    BraceFreeClear(ps[5]);
    BraceFreeClear(ps[6]);
    BraceFreeClear(ps[7]);
  }

  /** Both parts of the Twitter button. */
  lemma TwitterPiecesClear()
    ensures forall k | 0 <= k < 10 :: Clear(Twitter().after[k])
  {
    var ps := Twitter().after;
    BraceFreeClear(ps[0]);
    BraceFreeClear(ps[1]);
    BraceFreeClear(ps[2]);
    BraceFreeClear(ps[3]);
    BraceFreeClear(ps[4]);
    BraceFreeClear(ps[5]);
    BraceFreeClear(ps[6]);
    BraceFreeClear(ps[7]);
    BraceFreeClear(ps[8]);
    BraceFreeClear(ps[9]);
  }

  lemma TwitterWellFormed()
    ensures Twitter().WellFormed()
  {
    TwitterPiecesClear();
    var b := Twitter().before;
    assert Clear(b[0]) by { BraceFreeClear(b[0]); }
    assert Clear(b[1]) by { BraceFreeClear(b[1]); }
    ConcatClear(b);
    ConcatClear(Twitter().after);
  }

  lemma LinkedinWellFormed()
    ensures Linkedin().WellFormed()
  {
    var b := Linkedin().before;
    assert Clear(b[0]) by { BraceFreeClear(b[0]); }
    assert Clear(b[1]) by { BraceFreeClear(b[1]); }
    assert Clear(b[2]) by { BraceFreeClear(b[2]); }
    assert Clear(b[3]) by { BraceFreeClear(b[3]); }
    ConcatClear(b);
    var t := Linkedin().after;
    assert Clear(t[0]) by { BraceFreeClear(t[0]); }
    ConcatClear(t);
  }

  lemma FacebookWellFormed()
    ensures Facebook().WellFormed()
  {
    FacebookLoaderHeadClear();
    FacebookLoaderGuardClear();
    FacebookLoaderSourceClear();
    FacebookLikeOpenClear();
    FacebookLikeCloseClear();
    ConcatClear(Facebook().before);
    ConcatClear(Facebook().after);
  }

  /** The `ShareTemplates` object: one template per share button. */
  datatype Catalog = Catalog(twitter: Template, facebook: Template, linkedin: Template) {
    ghost predicate WellFormed() {
      twitter.WellFormed() && facebook.WellFormed() && linkedin.WellFormed()
    }
  }

  /** The `ShareTemplates` object of the page. */
  function Standard(): Catalog {
    Catalog(Twitter(), Facebook(), Linkedin())
  }

  lemma StandardWellFormed()
    ensures Standard().WellFormed()
  {
    TwitterWellFormed();
    FacebookWellFormed();
    LinkedinWellFormed();
  }
}
