/** `_escape` of scripts/gen_api_tables.py: a prefix code. */
module LatexEscape {
  import opened Prelude

  predicate Special(c: char) {
    c in {'\\', '&', '%', '$', '#', '_', '{', '}', '~', '^'}
  }

  /** The replacement table; every other character stands for itself. */
  function Code(c: char): (code: string)
    ensures code != []
  {
    match c
    case '\\' => "\\textbackslash{}"
    case '&' => "\\&"
    case '%' => "\\%"
    case '$' => "\\$"
    case '#' => "\\#"
    case '_' => "\\_"
    case '{' => "\\{"
    case '}' => "\\}"
    case '~' => "\\textasciitilde{}"
    case '^' => "\\textasciicircum{}"
    case _ => [c]
  }

  function Escape(text: string): string {
    if text == [] then [] else Code(text[0]) + Escape(text[1..])
  }

  // ---------------------------------------------------------------------------
  // Reading escaped text back
  // ---------------------------------------------------------------------------

  /** What LaTeX sets for the codeword `s` begins with, if it begins with one: a plain character, a
      control symbol for one of the seven characters that have it, or one of the three commands. */
  function Leading(s: string): Option<char> {
    if s == [] then None
    else if !Special(s[0]) then Some(s[0])
    else if s[0] != '\\' || |s| < 2 then None
    else if s[1] != 't' then if s[1] != '\\' && s[1] != '~' && s[1] != '^' && Special(s[1]) then Some(s[1]) else None
    else if "\\textbackslash{}" <= s then Some('\\')
    else if "\\textasciitilde{}" <= s then Some('~')
    else if "\\textasciicircum{}" <= s then Some('^')
    else None
  }

  /** An unescaper; None for text no escaping produces. */
  function Unescape(s: string): Option<string> {
    if s == [] then Some([])
    else
      match Leading(s)
      case None => None
      case Some(c) =>
        if |Code(c)| > |s| then None
        else
          match Unescape(s[|Code(c)|..])
          case None => None
          case Some(rest) => Some([c] + rest)
  }

  /** Whatever follows a codeword, LaTeX reads it as its character: no codeword begins another. */
  lemma LeadingFinds(c: char, rest: string)
    ensures Leading(Code(c) + rest) == Some(c)
  {
    var s := Code(c) + rest;
    assert Code(c) <= s;
    if c in {'\\', '~', '^'} {
      assert s[5] == Code(c)[5] && s[10] == Code(c)[10];
      assert Code('\\')[5] == 'b' && Code('~')[5] == 'a' && Code('^')[5] == 'a';
      assert Code('~')[10] == 't' && Code('^')[10] == 'c';
    }
  }

  lemma ReadsOne(c: char, rest: string, read: string)
    requires Unescape(rest) == Some(read)
    ensures Unescape(Code(c) + rest) == Some([c] + read)
  {
    var s := Code(c) + rest;
    LeadingFinds(c, rest);
    assert s != [] && |Code(c)| <= |s| && s[|Code(c)|..] == rest;
  }

  /** Escaping loses nothing: unescaping recovers every text. */
  lemma {:induction false} RoundTrip(text: string)
    ensures Unescape(Escape(text)) == Some(text)
  {
    if text != [] {
      RoundTrip(text[1..]);
      ReadsOne(text[0], Escape(text[1..]), text[1..]);
      assert text == [text[0]] + text[1..];
    }
  }

  /** Two different texts are never escaped alike. */
  lemma EscapeInjective(a: string, b: string)
    requires Escape(a) == Escape(b)
    ensures a == b
  {
    RoundTrip(a);
    RoundTrip(b);
  }

  lemma {:induction false} EscapeSplits(a: string, b: string)
    ensures Escape(a + b) == Escape(a) + Escape(b)
  {
    if a == [] {
      assert a + b == b;
    } else {
      assert (a + b)[1..] == a[1..] + b;
      EscapeSplits(a[1..], b);
    }
  }

  lemma EscapeFirst(text: string, k: nat)
    requires 1 <= k <= |text|
    ensures Escape(text) == Code(text[0]) + Escape(text[1..])
    ensures Escape(text[..k]) == Code(text[0]) + Escape(text[..k][1..])
  {
  }

  /** The input position whose codeword covers an output position. */
  lemma {:induction false} Covering(text: string, i: nat) returns (k: nat)
    requires i < |Escape(text)|
    ensures k < |text| && |Escape(text[..k])| <= i < |Escape(text[..k])| + |Code(text[k])|
    ensures Escape(text)[i] == Code(text[k])[i - |Escape(text[..k])|]
  {
    var code := Code(text[0]);
    if i < |code| {
      k := 0;
      assert text[..0] == [];
    } else {
      var j := Covering(text[1..], i - |code|);
      k := j + 1;
      EscapeFirst(text, k);
      assert text[..k][1..] == text[1..][..j];
    }
  }

  /** A special character in the output always lies inside the codeword of a special character of
      the input: nothing LaTeX would interpret is passed through. */
  lemma {:induction false} SpecialsAreInsideCodewords(text: string, i: nat) returns (k: nat)
    requires i < |Escape(text)| && Special(Escape(text)[i])
    ensures k < |text| && Special(text[k])
    ensures Escape(text) == Escape(text[..k]) + Code(text[k]) + Escape(text[k + 1..])
    ensures |Escape(text[..k])| <= i < |Escape(text[..k])| + |Code(text[k])|
  {
    k := Covering(text, i);
    assert text == text[..k] + text[k..] && text[k..][1..] == text[k + 1..];
    EscapeSplits(text[..k], text[k..]);
  }
}
