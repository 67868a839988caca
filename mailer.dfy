/**
 * The mail body of `pkg/mailer/resend.go`: the Markdown report is escaped
 * for HTML (`templateEscape`) and wrapped in a `<pre>` element, and the
 * request is refused when the mail settings are missing. Sending the HTTP
 * request is left out.
 */
module Mailer {
  import opened Wrappers

  /** The opening tag the Markdown is wrapped in, so that its layout survives. */
  const PreOpen: string :=
    "<pre style=\"font: 14px/1.4 ui-monospace, SFMono-Regular, Menlo, Monaco, Consolas, 'Liberation Mono', monospace; white-space: pre-wrap;\">"
  const PreClose: string := "</pre>"

  const MissingSettings: string := "missing RESEND_API_KEY, FROM_EMAIL, or SUBSTACK_POST_EMAIL"

  /** The replacement table: `&`, `<` and `>` become entities, every other character stays. */
  function EscapeChar(c: char): (e: string)
    ensures c == '&' ==> e == "&amp;"
    ensures c == '<' ==> e == "&lt;"
    ensures c == '>' ==> e == "&gt;"
    ensures c != '&' && c != '<' && c != '>' ==> e == [c]
  {
    if c == '&' then "&amp;"
    else if c == '<' then "&lt;"
    else if c == '>' then "&gt;"
    else [c]
  }

  /** `templateEscape(s)`: each character replaced by its table entry, in order. */
  function Escape(s: string): string
  {
    if s == [] then [] else EscapeChar(s[0]) + Escape(s[1..])
  }

  /** Escaping distributes over concatenation. */
  lemma {:induction false} EscapeConcat(a: string, b: string)
    ensures Escape(a + b) == Escape(a) + Escape(b)
  {
    if a == [] {
      assert a + b == b;
    } else {
      var ab := a + b;
      assert ab[0] == a[0] && ab[1..] == a[1..] + b;
      EscapeConcat(a[1..], b);
      calc {
        Escape(ab);
        EscapeChar(a[0]) + Escape(a[1..] + b);
        EscapeChar(a[0]) + (Escape(a[1..]) + Escape(b));
        (EscapeChar(a[0]) + Escape(a[1..])) + Escape(b);
      }
    }
  }

  /** `templateEscape`: the loop over the characters of `s`. */
  method TemplateEscape(s: string) returns (out: string)
    ensures out == Escape(s)
  {
    out := "";
    for i := 0 to |s|
      invariant out == Escape(s[..i])
    {
      var c := s[i];
      ghost var before := out;
      if c == '&' {
        out := out + "&amp;";
      } else if c == '<' {
        out := out + "&lt;";
      } else if c == '>' {
        out := out + "&gt;";
      } else {
        out := out + [c];
      }
      assert out == before + EscapeChar(c);
      assert s[..i + 1] == s[..i] + [c];
      EscapeConcat(s[..i], [c]);
      assert Escape([c]) == EscapeChar(c);
    }
    assert s[..|s|] == s;
  }

  /** The escaped text has no angle brackets, so it cannot open or close a tag. */
  lemma {:induction false} EscapeHasNoAngles(s: string)
    ensures '<' !in Escape(s) && '>' !in Escape(s)
  {
    if s != [] {
      EscapeHasNoAngles(s[1..]);
    }
  }

  /** Text with none of `&`, `<`, `>` is returned unchanged. */
  lemma {:induction false} EscapePlainText(s: string)
    requires '&' !in s && '<' !in s && '>' !in s
    ensures Escape(s) == s
  {
    if s != [] {
      EscapePlainText(s[1..]);
      assert s == [s[0]] + s[1..];
    }
  }

  /** Decoding the three entities; every other character is copied. */
  function Unescape(t: string): string
    decreases |t|
  {
    if t == [] then []
    else if |t| >= 5 && t[..5] == "&amp;" then "&" + Unescape(t[5..])
    else if |t| >= 4 && t[..4] == "&lt;" then "<" + Unescape(t[4..])
    else if |t| >= 4 && t[..4] == "&gt;" then ">" + Unescape(t[4..])
    else [t[0]] + Unescape(t[1..])
  }

  /** Decoding undoes the escape of one character in front of any text. */
  lemma UnescapeStep(c: char, rest: string)
    ensures Unescape(EscapeChar(c) + rest) == [c] + Unescape(rest)
  {
    var t := EscapeChar(c) + rest;
    if c == '&' {
      assert t[..5] == "&amp;" && t[5..] == rest;
    } else if c == '<' {
      assert t[..4] == "&lt;" && t[4..] == rest;
      assert |t| >= 5 ==> t[..5][1] == 'l';
    } else if c == '>' {
      assert t[..4] == "&gt;" && t[4..] == rest;
      assert |t| >= 5 ==> t[..5][1] == 'g';
    } else {
      assert t[0] == c && t[1..] == rest;
    }
  }

  /** No information is lost: the escaped text decodes back to the original. */
  lemma {:induction false} UnescapeEscape(s: string)
    ensures Unescape(Escape(s)) == s
  {
    if s != [] {
      UnescapeEscape(s[1..]);
      UnescapeStep(s[0], Escape(s[1..]));
      assert s == [s[0]] + s[1..];
    }
  }

  /** The HTML mail body: the Markdown, escaped, inside the `<pre>` element. */
  function HtmlBody(md: string): (html: string)
    ensures |html| == |PreOpen| + |Escape(md)| + |PreClose|
    ensures html[..|PreOpen|] == PreOpen && html[|html| - |PreClose|..] == PreClose
    ensures html[|PreOpen|..|html| - |PreClose|] == Escape(md)
  {
    PreOpen + Escape(md) + PreClose
  }

  /**
   * Between the fixed tags the body holds no angle bracket, and it decodes
   * back to the Markdown: the report text can neither inject markup nor be
   * altered by the wrapping.
   */
  lemma HtmlBodyContent(md: string)
    ensures var html := HtmlBody(md);
      && (forall i :: |PreOpen| <= i < |html| - |PreClose| ==> html[i] != '<' && html[i] != '>')
      && Unescape(html[|PreOpen|..|html| - |PreClose|]) == md
  {
    WrappedContent(PreOpen, PreClose, md);
  }

  lemma WrappedContent(open: string, close: string, md: string)
    ensures var html := open + Escape(md) + close;
      && (forall i :: |open| <= i < |html| - |close| ==> html[i] != '<' && html[i] != '>')
      && Unescape(html[|open|..|html| - |close|]) == md
  {
    var html := open + Escape(md) + close;
    assert html[|open|..|html| - |close|] == Escape(md);
    EscapeHasNoAngles(md);
    UnescapeEscape(md);
    forall i | |open| <= i < |html| - |close| ensures html[i] != '<' && html[i] != '>' {
      assert html[i] == Escape(md)[i - |open|];
    }
  }

  /** What `SendMarkdown` posts to the mail API. */
  datatype EmailRequest = EmailRequest(from: string, to: seq<string>, subject: string, html: string)

  /**
   * The request `SendMarkdown` builds from the settings `RESEND_API_KEY`,
   * `FROM_EMAIL` and `SUBSTACK_POST_EMAIL` (unset reads as empty), or the
   * error it returns when one of them is empty.
   */
  function MailRequest(env: map<string, string>, subject: string, md: string): (r: Result<EmailRequest, string>)
    ensures r.Failure? <==> Setting(env, "RESEND_API_KEY") == "" || Setting(env, "FROM_EMAIL") == ""
                             || Setting(env, "SUBSTACK_POST_EMAIL") == ""
    ensures r.Failure? ==> r.error == MissingSettings
    ensures r.Success? ==> r.value == EmailRequest(env["FROM_EMAIL"], [env["SUBSTACK_POST_EMAIL"]], subject, HtmlBody(md))
  {
    var api, from, to := Setting(env, "RESEND_API_KEY"), Setting(env, "FROM_EMAIL"), Setting(env, "SUBSTACK_POST_EMAIL");
    if api == "" || from == "" || to == "" then Failure(MissingSettings)
    else Success(EmailRequest(from, [to], subject, HtmlBody(md)))
  }

  /** `os.Getenv(key)`: the value, or "" when unset. */
  function Setting(env: map<string, string>, key: string): (v: string)
    ensures key in env ==> v == env[key]
    ensures key !in env ==> v == ""
  {
    if key in env then env[key] else ""
  }
}
