/**
 * The HTML escaper `html_escape` (colorizer.py:25-30): `&` is replaced first, then `<`, `>` and
 * backslash, each by one `str.replace` over the whole text. The backslash entity is `&#39`,
 * without a terminating `;`, exactly as the source writes it.
 */
module Escaper {
  import opened PyStr

  /** The replacements applied after the `&` one, in order (colorizer.py:26). */
  const EscapeChars: seq<(char, string)> := [('<', "&lt;"), ('>', "&gt;"), ('\\', "&#39")]

  /** What one input character becomes in the escaped text. */
  function EscapeChar(c: char): string {
    if c == '&' then "&amp;"
    else if c == '<' then "&lt;"
    else if c == '>' then "&gt;"
    else if c == '\\' then "&#39"
    else [c]
  }

  /** The escaped text, character by character: the specification of `html_escape`. */
  function Escape(s: string): string {
    if s == [] then [] else EscapeChar(s[0]) + Escape(s[1..])
  }

  /** The text after the `&` replacement and the first `k` replacements of `EscapeChars`. */
  function ReplaceChain(s: string, k: nat): string
    requires k <= |EscapeChars|
  {
    if k == 0 then Replace(s, '&', "&amp;")
    else Replace(ReplaceChain(s, k - 1), EscapeChars[k - 1].0, EscapeChars[k - 1].1)
  }

  /** `html_escape`: the `&` replacement, then a loop over `EscapeChars`; the result is the per-character map. */
  method HtmlEscape(inputBuffer: string) returns (outBuffer: string)
    ensures outBuffer == Escape(inputBuffer)
  {
    var escapeChars := EscapeChars;
    outBuffer := Replace(inputBuffer, '&', "&amp;");
    for i := 0 to |escapeChars|
      invariant outBuffer == ReplaceChain(inputBuffer, i)
    {
      var (ch, esc) := escapeChars[i];
      outBuffer := Replace(outBuffer, ch, esc);
    }
    ChainIsCharacterMap(inputBuffer);
  }

  // The chain as a per-character map: after the `&` step and `k` steps of `EscapeChars`,
  // each input character has become StageChar(c, k), whatever its neighbours.

  function StageChar(c: char, k: nat): string {
    if c == '&' then "&amp;"
    else if k >= 1 && c == '<' then "&lt;"
    else if k >= 2 && c == '>' then "&gt;"
    else if k >= 3 && c == '\\' then "&#39"
    else [c]
  }

  function Stage(s: string, k: nat): string {
    if s == [] then [] else StageChar(s[0], k) + Stage(s[1..], k)
  }

  lemma {:induction false} AmpersandStep(s: string)
    ensures Replace(s, '&', "&amp;") == Stage(s, 0)
  {
    if s != [] {
      assert s == [s[0]] + s[1..];
      ReplaceConcat([s[0]], s[1..], '&', "&amp;");
      AmpersandStep(s[1..]);
    }
  }

  /** No entity inserted so far contains the next target, so step `k` only rewrites untouched characters. */
  lemma StageCharStep(c: char, k: nat)
    requires k < |EscapeChars|
    ensures Replace(StageChar(c, k), EscapeChars[k].0, EscapeChars[k].1) == StageChar(c, k + 1)
  {
    var (target, entity) := EscapeChars[k];
    if StageChar(c, k) != [c] {
      assert target !in StageChar(c, k);
      ReplaceAbsent(StageChar(c, k), target, entity);
    }
  }

  lemma {:induction false} StageStep(s: string, k: nat)
    requires k < |EscapeChars|
    ensures Replace(Stage(s, k), EscapeChars[k].0, EscapeChars[k].1) == Stage(s, k + 1)
  {
    if s != [] {
      ReplaceConcat(StageChar(s[0], k), Stage(s[1..], k), EscapeChars[k].0, EscapeChars[k].1);
      StageCharStep(s[0], k);
      StageStep(s[1..], k);
    }
  }

  lemma {:induction false} StageIsEscape(s: string)
    ensures Stage(s, |EscapeChars|) == Escape(s)
  {
    if s != [] {
      StageIsEscape(s[1..]);
    }
  }

  lemma {:induction false} ChainIsStage(s: string, k: nat)
    requires k <= |EscapeChars|
    ensures ReplaceChain(s, k) == Stage(s, k)
  {
    if k == 0 {
      AmpersandStep(s);
    } else {
      ChainIsStage(s, k - 1);
      StageStep(s, k - 1);
    }
  }

  /** The chain of four `replace` calls equals the per-character map `Escape`. */
  lemma ChainIsCharacterMap(s: string)
    ensures ReplaceChain(s, |EscapeChars|) == Escape(s)
  {
    ChainIsStage(s, |EscapeChars|);
    StageIsEscape(s);
  }

  /** Escaping distributes over concatenation. */
  lemma {:induction false} EscapeConcat(s: string, t: string)
    ensures Escape(s + t) == Escape(s) + Escape(t)
  {
    if s == [] {
      assert s + t == t;
    } else {
      assert (s + t)[1..] == s[1..] + t;
      EscapeConcat(s[1..], t);
    }
  }

  /** The escaped text holds no `<`, no `>` and no backslash. */
  lemma {:induction false} EscapeRemovesSpecials(s: string)
    ensures '<' !in Escape(s) && '>' !in Escape(s) && '\\' !in Escape(s)
  {
    if s != [] {
      EscapeRemovesSpecials(s[1..]);
    }
  }

  /** `t` begins with one of the four entities the escaper inserts. */
  predicate StartsEntity(t: string) {
    "&amp;" <= t || "&lt;" <= t || "&gt;" <= t || "&#39" <= t
  }

  /** Every `&` of the escaped text begins one of the four entities. */
  lemma {:induction false} EscapedAmpersandStartsEntity(s: string, i: nat)
    requires i < |Escape(s)| && Escape(s)[i] == '&'
    ensures StartsEntity(Escape(s)[i..])
  {
    var head, rest := EscapeChar(s[0]), Escape(s[1..]);
    assert Escape(s) == head + rest;
    if i < |head| {
      assert i == 0;
      assert Escape(s)[i..] == head + rest;
    } else {
      assert Escape(s)[i..] == rest[i - |head|..];
      EscapedAmpersandStartsEntity(s[1..], i - |head|);
    }
  }

  /** Reads the escaped text back: each entity gives its character, any other character stands for itself. */
  function Unescape(t: string): string
    decreases |t|
  {
    if t == [] then []
    else if "&amp;" <= t then "&" + Unescape(t[5..])
    else if "&lt;" <= t then "<" + Unescape(t[4..])
    else if "&gt;" <= t then ">" + Unescape(t[4..])
    else if "&#39" <= t then "\\" + Unescape(t[4..])
    else [t[0]] + Unescape(t[1..])
  }

  /** Escaping loses nothing: the original text can be read back from the escaped one. */
  lemma {:induction false} EscapeRoundTrip(s: string)
    ensures Unescape(Escape(s)) == s
  {
    if s != [] {
      var c, rest := s[0], Escape(s[1..]);
      var t := Escape(s);
      assert t == EscapeChar(c) + rest;
      EscapeRoundTrip(s[1..]);
      if c == '&' {
        assert "&amp;" <= t && t[5..] == rest;
      } else if c == '<' {
        assert t[1] == 'l' && "&lt;" <= t && t[4..] == rest;
      } else if c == '>' {
        assert t[1] == 'g' && "&gt;" <= t && t[4..] == rest;
      } else if c == '\\' {
        assert t[1] == '#' && "&#39" <= t && t[4..] == rest;
      } else {
        assert t[0] == c && t[1..] == rest;
      }
      assert s == [c] + s[1..];
    }
  }

  /** The escaper on the backslash writes the unterminated `&#39`, after the other entities. */
  lemma EscapeExample()
    ensures Escape("<&\\") == "&lt;&amp;&#39"
  {
  }
}
