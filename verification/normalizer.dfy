/**
 * `normalizeSystemName`: the canonical form under which system names are
 * compared. It URL-decodes, trims PHP's default whitespace and collapses every
 * `\s` run to one space, in that order. Matching stays case-sensitive.
 */
module Normalizer {
  import opened PhpStr

  /** The key a raw name is looked up and deduplicated by. */
  function NormalizeSystemName(name: string): (r: string)
    ensures |r| <= |name|
    ensures SpacesCollapsed(r)
  {
    CollapseSpaces(Trim(UrlDecode(name), TrimDefault))
  }

  /** No tab, newline, carriage return, vertical tab or form feed survives, and no two spaces touch. */
  lemma NormalizedShape(name: string)
    ensures var r := NormalizeSystemName(name);
      forall i :: 0 <= i < |r| ==> r[i] != '\t' && r[i] != '\n' && r[i] != '\r'
                                   && r[i] != '\U{0B}' && r[i] != '\U{0C}'
    ensures var r := NormalizeSystemName(name);
      forall i :: 0 <= i < |r| - 1 ==> !(r[i] == ' ' && r[i + 1] == ' ')
  {
    var r := NormalizeSystemName(name);
    assert SpacesCollapsed(r);
    forall i | 0 <= i < |r| - 1
      ensures !(r[i] == ' ' && r[i + 1] == ' ')
    {
      assert !(IsPcreSpace(r[i]) && IsPcreSpace(r[i + 1]));
    }
  }

  /**
   * Inner whitespace becomes one space: a name made of `x`, a run `w` of `\s`
   * characters and `y`, with nothing to decode and nothing to trim, has as key
   * `x` and `y` collapsed and joined by one space, whatever `w` was.
   */
  lemma NormalizeInnerRun(x: string, w: string, y: string)
    requires forall k :: 0 <= k < |x| ==> x[k] != '%' && x[k] != '+'
    requires forall k :: 0 <= k < |y| ==> y[k] != '%' && y[k] != '+'
    requires x != "" && x[0] !in TrimDefault && !IsPcreSpace(x[|x| - 1])
    requires y != "" && !IsPcreSpace(y[0]) && y[|y| - 1] !in TrimDefault
    requires w != "" && forall k :: 0 <= k < |w| ==> IsPcreSpace(w[k])
    ensures NormalizeSystemName(x + w + y) == CollapseSpaces(x) + " " + CollapseSpaces(y)
  {
    var s := x + w + y;
    forall k | 0 <= k < |s|
      ensures s[k] != '%' && s[k] != '+'
    {
      if k < |x| {
        assert s[k] == x[k];
      } else if k < |x| + |w| {
        assert s[k] == w[k - |x|];
      } else {
        assert s[k] == y[k - |x| - |w|];
      }
    }
    assert UrlDecode(s) == s;
    assert s[0] == x[0] && s[|s| - 1] == y[|y| - 1];
    assert Trim(s, TrimDefault) == s;
    CollapseSpacesRun(x, w, y);
  }

  /** Names that differ only in the whitespace between two words have the same key: "Sys  A", "Sys\tA", "Sys A". */
  lemma SameKeyUpToInnerWhitespace(x: string, w1: string, w2: string, y: string)
    requires forall k :: 0 <= k < |x| ==> x[k] != '%' && x[k] != '+'
    requires forall k :: 0 <= k < |y| ==> y[k] != '%' && y[k] != '+'
    requires x != "" && x[0] !in TrimDefault && !IsPcreSpace(x[|x| - 1])
    requires y != "" && !IsPcreSpace(y[0]) && y[|y| - 1] !in TrimDefault
    requires w1 != "" && forall k :: 0 <= k < |w1| ==> IsPcreSpace(w1[k])
    requires w2 != "" && forall k :: 0 <= k < |w2| ==> IsPcreSpace(w2[k])
    ensures NormalizeSystemName(x + w1 + y) == NormalizeSystemName(x + w2 + y)
  {
    NormalizeInnerRun(x, w1, y);
    NormalizeInnerRun(x, w2, y);
  }

  /** Whitespace around a name with nothing to decode is trimmed away before collapsing. */
  lemma NormalizePadded(l: string, m: string, r: string)
    requires forall k :: 0 <= k < |l| ==> l[k] in TrimDefault
    requires forall k :: 0 <= k < |r| ==> r[k] in TrimDefault
    requires forall k :: 0 <= k < |m| ==> m[k] != '%' && m[k] != '+'
    requires m != "" && Trimmed(m, TrimDefault)
    ensures NormalizeSystemName(l + m + r) == CollapseSpaces(m)
  {
    var s := l + m + r;
    forall k | 0 <= k < |s|
      ensures s[k] != '%' && s[k] != '+'
    {
      if k < |l| {
        assert s[k] == l[k];
      } else if k < |l| + |m| {
        assert s[k] == m[k - |l|];
      } else {
        assert s[k] == r[k - |l| - |m|];
      }
    }
    assert UrlDecode(s) == s;
    TrimAround(l, m, r, TrimDefault);
  }

  /** Two words padded and separated by spaces: the padding goes and the gap becomes one space. */
  lemma PaddedPair(a: char, b: char)
    requires !IsPcreSpace(a) && a !in TrimDefault && a != '%' && a != '+'
    requires !IsPcreSpace(b) && b !in TrimDefault && b != '%' && b != '+'
    ensures NormalizeSystemName([' ', ' ', a, ' ', ' ', ' ', b, ' ', ' ']) == [a, ' ', b]
  {
    var pad, m := [' ', ' '], [a, ' ', ' ', ' ', b];
    assert [' ', ' ', a, ' ', ' ', ' ', b, ' ', ' '] == pad + m + pad;
    GapCollapses(a, b);
    NormalizePadded(pad, m, pad);
  }

  lemma GapCollapses(a: char, b: char)
    requires !IsPcreSpace(a) && !IsPcreSpace(b)
    ensures CollapseSpaces([a, ' ', ' ', ' ', b]) == [a, ' ', b]
  {
    var gap := [' ', ' ', ' '];
    assert [a, ' ', ' ', ' ', b] == [a] + gap + [b];
    CollapseSpacesRun([a], gap, [b]);
    CollapseSingle(a);
    CollapseSingle(b);
  }

  lemma CollapseSingle(c: char)
    requires !IsPcreSpace(c)
    ensures CollapseSpaces([c]) == [c]
  {
    assert [c][1..] == [];
  }

  /** "  a   b  " has the key "a b". */
  lemma PaddedNameExample()
    ensures NormalizeSystemName("  a   b  ") == "a b"
  {
    PaddedPair('a', 'b');
  }

  /** Neither `%`, `+` nor a form feed occurs: the inputs normalisation is idempotent on. */
  predicate PlainName(s: string) {
    forall i :: 0 <= i < |s| ==> s[i] != '%' && s[i] != '+' && s[i] != '\U{0C}'
  }

  /** The whitespace `\s` matches is the default trim set plus the form feed. */
  lemma PcreSpaceIsTrimmedOrFormFeed(c: char)
    requires IsPcreSpace(c)
    ensures c in TrimDefault || c == '\U{0C}'
  {
  }

  /** On a plain name normalisation is idempotent, and its output is plain again. */
  lemma NormalizeIdempotent(name: string)
    requires PlainName(name)
    ensures PlainName(NormalizeSystemName(name))
    ensures NormalizeSystemName(NormalizeSystemName(name)) == NormalizeSystemName(name)
  {
    var t := Trim(UrlDecode(name), TrimDefault);
    TrimKeepsPlain(name);
    CollapseKeepsPlain(t);
    NormalFormIsFixed(CollapseSpaces(t));
  }

  /** Trimming a plain name leaves a plain trimmed string. */
  lemma TrimKeepsPlain(s: string)
    requires PlainName(s)
    ensures UrlDecode(s) == s
    ensures var t := Trim(s, TrimDefault); PlainName(t) && Trimmed(t, TrimDefault)
  {
    var t := Trim(s, TrimDefault);
    forall i | 0 <= i < |t|
      ensures t[i] != '%' && t[i] != '+' && t[i] != '\U{0C}'
    {
      assert t[i] in t;
    }
  }

  /** Collapsing such a string keeps it plain and keeps its two ends, so nothing is left to trim. */
  lemma CollapseKeepsPlain(t: string)
    requires PlainName(t) && Trimmed(t, TrimDefault)
    ensures var y := CollapseSpaces(t);
      PlainName(y) && Trimmed(y, TrimDefault) && SpacesCollapsed(y)
  {
    var y := CollapseSpaces(t);
    CollapseRunContent(t, false);
    forall i | 0 <= i < |y|
      ensures y[i] != '%' && y[i] != '+' && y[i] != '\U{0C}'
    {
      assert y[i] in y;
    }
    if t != "" {
      if IsPcreSpace(t[0]) { PcreSpaceIsTrimmedOrFormFeed(t[0]); }
      if IsPcreSpace(t[|t| - 1]) { PcreSpaceIsTrimmedOrFormFeed(t[|t| - 1]); }
      CollapseRunEnds(t, false);
    }
  }

  /** A plain, trimmed, collapsed string is its own normal form. */
  lemma NormalFormIsFixed(y: string)
    requires PlainName(y) && Trimmed(y, TrimDefault) && SpacesCollapsed(y)
    ensures NormalizeSystemName(y) == y
  {
    assert UrlDecode(y) == y;
    assert Trim(y, TrimDefault) == y;
    CollapseSpacesFixedPoint(y);
  }

  /** A name that was stored percent-encoded normalises to the key of the plain name. */
  lemma NormalizeDecodesStoredEncoding(name: string)
    requires IsByteString(name)
    requires forall i :: 0 <= i < |name| ==> name[i] != '%' && name[i] != '+'
    ensures NormalizeSystemName(PercentEncode(name)) == NormalizeSystemName(name)
  {
    UrlDecodePercentEncode(name);
  }

  /**
   * Decoding twice differs from decoding once: "%25" followed by two hex digits
   * normalises to "%" and those digits, which normalise to the byte they spell.
   * With "41" that is "%2541" -> "%41" -> "A".
   */
  lemma NotIdempotentOnDoubleEncoding(hi: char, lo: char)
    requires IsHexDigit(hi) && IsHexDigit(lo)
    requires var b := (HexValue(hi) * 16 + HexValue(lo)) as char;
      !IsPcreSpace(b) && b != '\0'
    ensures NormalizeSystemName(['%', '2', '5', hi, lo]) == ['%', hi, lo]
    ensures NormalizeSystemName(['%', hi, lo]) == [(HexValue(hi) * 16 + HexValue(lo)) as char]
  {
    EscapedPercentDecodes(hi, lo);
    EscapeDecodes(hi, lo);
  }

  lemma EscapedPercentDecodes(hi: char, lo: char)
    requires IsHexDigit(hi) && IsHexDigit(lo)
    ensures NormalizeSystemName(['%', '2', '5', hi, lo]) == ['%', hi, lo]
  {
    var e := ['%', '2', '5', hi, lo];
    var p := ['%', hi, lo];
    DecodeEscape(e);
    assert e[3..] == [hi, lo];
    assert UrlDecode([hi, lo]) == [hi, lo];
    NormalizeWithoutSpaces(e, p);
  }

  lemma EscapeDecodes(hi: char, lo: char)
    requires IsHexDigit(hi) && IsHexDigit(lo)
    requires var b := (HexValue(hi) * 16 + HexValue(lo)) as char;
      !IsPcreSpace(b) && b != '\0'
    ensures NormalizeSystemName(['%', hi, lo]) == [(HexValue(hi) * 16 + HexValue(lo)) as char]
  {
    var p := ['%', hi, lo];
    DecodeEscape(p);
    assert p[3..] == [];
    NormalizeWithoutSpaces(p, [(HexValue(hi) * 16 + HexValue(lo)) as char]);
  }

  /** A name that decodes to a string without whitespace normalises to that string. */
  lemma NormalizeWithoutSpaces(name: string, decoded: string)
    requires UrlDecode(name) == decoded
    requires forall i :: 0 <= i < |decoded| ==> !IsPcreSpace(decoded[i]) && decoded[i] != '\0'
    ensures NormalizeSystemName(name) == decoded
  {
    KeptByTrimAndCollapse(decoded);
  }

  /** The instance with "41": "%2541" normalises to "%41" and then to "A". */
  lemma DoubleEncodedA()
    ensures NormalizeSystemName("%2541") == "%41"
    ensures NormalizeSystemName("%41") == "A"
  {
    assert HexValue('4') * 16 + HexValue('1') == 0x41;
    NotIdempotentOnDoubleEncoding('4', '1');
  }

  /** A string with no whitespace at all passes the trim and the collapse unchanged. */
  lemma KeptByTrimAndCollapse(s: string)
    requires forall i :: 0 <= i < |s| ==> !IsPcreSpace(s[i]) && s[i] != '\0'
    ensures CollapseSpaces(Trim(s, TrimDefault)) == s
  {
    if s != "" {
      NotTrimmable(s[0]);
      NotTrimmable(s[|s| - 1]);
    }
    assert Trim(s, TrimDefault) == s;
    assert SpacesCollapsed(s);
    CollapseSpacesFixedPoint(s);
  }

  lemma NotTrimmable(c: char)
    requires !IsPcreSpace(c) && c != '\0'
    ensures c !in TrimDefault
  {
  }

  /**
   * A leading form feed survives the trim and turns into a space that the next
   * call trims: "\fa" normalises to " a", which normalises to "a".
   */
  lemma NotIdempotentOnFormFeed(c: char)
    requires !IsPcreSpace(c) && c !in TrimDefault && c != '%' && c != '+'
    ensures NormalizeSystemName(['\U{0C}', c]) == [' ', c]
    ensures NormalizeSystemName([' ', c]) == [c]
  {
    FormFeedBecomesSpace(c);
    LeadingSpaceTrimmed(c);
  }

  lemma FormFeedBecomesSpace(c: char)
    requires !IsPcreSpace(c) && c !in TrimDefault && c != '%' && c != '+'
    ensures NormalizeSystemName(['\U{0C}', c]) == [' ', c]
  {
    var f := ['\U{0C}', c];
    assert f[1..] == [c];
    assert UrlDecode(f) == f;
    assert Trimmed(f, TrimDefault);
    assert Trim(f, TrimDefault) == f;
    assert CollapseRun([c][1..], false) == [];
    assert CollapseRun([c], true) == [c];
    assert CollapseRun(f, false) == [' '] + CollapseRun([c], true);
  }

  lemma LeadingSpaceTrimmed(c: char)
    requires !IsPcreSpace(c) && c !in TrimDefault && c != '%' && c != '+'
    ensures NormalizeSystemName([' ', c]) == [c]
  {
    var sc := [' ', c];
    assert sc[1..] == [c];
    assert UrlDecode(sc[1..]) == [c];
    assert UrlDecode(sc) == sc;
    assert sc == [' '] + [c] + [];
    TrimAround([' '], [c], [], TrimDefault);
    assert CollapseRun([c][1..], false) == [];
  }
}
