/**
 * The PHP string built-ins the status directory relies on: `empty()`, `trim()`,
 * `urldecode()` and `preg_replace('/\s+/', ' ', ...)`.
 *
 * PHP strings are byte strings. A Dafny `string` stands for one here, with each
 * character holding one byte; the functions never look beyond that.
 */
module PhpStr {

  /** PHP's `empty()` on a string value: true for "" and for "0" (a null cell reads as ""). */
  predicate PhpEmpty(s: string) {
    s == "" || s == "0"
  }

  /** The characters `trim()` strips when no character list is given: " \t\n\r\0\x0B". */
  const TrimDefault: set<char> := {' ', '\t', '\n', '\r', '\0', '\U{0B}'}

  /** A string whose first and last characters are both outside `cut`. */
  predicate Trimmed(s: string, cut: set<char>) {
    s == "" || (s[0] !in cut && s[|s| - 1] !in cut)
  }

  /** Where the trimmed part starts: the first position from `i` on whose character is not in `cut`, or `|s|`. */
  function LeadEnd(s: string, cut: set<char>, i: nat): (e: nat)
    requires i <= |s|
    ensures i <= e <= |s|
    ensures forall k :: i <= k < e ==> s[k] in cut
    ensures e < |s| ==> s[e] !in cut
    decreases |s| - i
  {
    if i < |s| && s[i] in cut then LeadEnd(s, cut, i + 1) else i
  }

  /** Where the trimmed part ends: `j` moved left past the characters of `cut`, but not below `lo`. */
  function TailStart(s: string, cut: set<char>, lo: nat, j: nat): (e: nat)
    requires lo <= j <= |s|
    ensures lo <= e <= j
    ensures forall k :: e <= k < j ==> s[k] in cut
    ensures lo < e ==> s[e - 1] !in cut
    decreases j
  {
    if lo < j && s[j - 1] in cut then TailStart(s, cut, lo, j - 1) else j
  }

  /**
   * Positions `i..j` are the core of `s` for `cut`: only `cut` characters
   * before `i` and from `j` on, and the slice between neither starts nor ends
   * with one. A string has exactly one core.
   */
  predicate TrimCore(s: string, cut: set<char>, i: nat, j: nat) {
    && i <= j <= |s|
    && (forall k :: 0 <= k < i ==> s[k] in cut)
    && (forall k :: j <= k < |s| ==> s[k] in cut)
    && Trimmed(s[i..j], cut)
  }

  /**
   * The core of `s`, found as `trim()` finds it: scan forward past the
   * characters of `cut`, then back from the end, never past the start.
   */
  function TrimSpan(s: string, cut: set<char>): (b: (nat, nat))
    ensures TrimCore(s, cut, b.0, b.1)
  {
    var i := LeadEnd(s, cut, 0);
    var j := TailStart(s, cut, i, |s|);
    assert Trimmed(s[i..j], cut) by {
      if i < j {
        assert s[i..j][0] == s[i] && s[i..j][j - i - 1] == s[j - 1];
      }
    }
    (i, j)
  }

  /**
   * `trim($s, $cut)`: strips characters of `cut` from both ends, and nothing else.
   * The result is the core of `s`.
   */
  function Trim(s: string, cut: set<char>): (r: string)
    ensures |r| <= |s|
    ensures Trimmed(r, cut)
    ensures exists i: nat, j: nat :: TrimCore(s, cut, i, j) && r == s[i..j]
    ensures forall c :: c in r ==> c in s
    ensures Trimmed(s, cut) ==> r == s
  {
    var (i, j) := TrimSpan(s, cut);
    SliceChars(s, i, j);
    TrimOfTrimmed(s, cut, i, j);
    s[i..j]
  }

  /** Every character of a slice is a character of the whole. */
  lemma SliceChars<T>(s: seq<T>, i: nat, j: nat)
    requires i <= j <= |s|
    ensures forall c :: c in s[i..j] ==> c in s
  {
    forall c | c in s[i..j]
      ensures c in s
    {
      var k :| 0 <= k < j - i && s[i..j][k] == c;
      assert s[i + k] == c;
    }
  }

  /** A string that is already trimmed is its own core. */
  lemma TrimOfTrimmed(s: string, cut: set<char>, i: nat, j: nat)
    requires TrimCore(s, cut, i, j)
    ensures Trimmed(s, cut) ==> s[i..j] == s
  {
    if Trimmed(s, cut) {
      assert s[0..|s|] == s;
      TrimCoreUnique(s, cut, i, j, 0, |s|);
    }
  }

  /** The core is unique as a string, so `trim()`'s contract determines its result. */
  lemma TrimCoreUnique(s: string, cut: set<char>, i: nat, j: nat, i2: nat, j2: nat)
    requires TrimCore(s, cut, i, j) && TrimCore(s, cut, i2, j2)
    ensures s[i..j] == s[i2..j2]
  {
    assert i < j ==> s[i] !in cut && s[j - 1] !in cut by {
      if i < j {
        assert s[i..j][0] == s[i] && s[i..j][j - i - 1] == s[j - 1];
      }
    }
    assert i2 < j2 ==> s[i2] !in cut && s[j2 - 1] !in cut by {
      if i2 < j2 {
        assert s[i2..j2][0] == s[i2] && s[i2..j2][j2 - i2 - 1] == s[j2 - 1];
      }
    }
    assert (i < j) == (i2 < j2);
    if i < j {
      assert i == i2 && j == j2;
    }
  }

  /** `trim()` returns the slice at its span. */
  lemma TrimAtSpan(s: string, cut: set<char>)
    ensures Trim(s, cut) == s[TrimSpan(s, cut).0..TrimSpan(s, cut).1]
  {
  }

  /** Padding `s` with `cut` characters moves its core along and keeps its content. */
  lemma {:induction false} CoreShift(l: string, s: string, r: string, cut: set<char>, i: nat, j: nat)
    requires forall k :: 0 <= k < |l| ==> l[k] in cut
    requires forall k :: 0 <= k < |r| ==> r[k] in cut
    requires TrimCore(s, cut, i, j)
    ensures TrimCore(l + s + r, cut, |l| + i, |l| + j)
    ensures (l + s + r)[|l| + i..|l| + j] == s[i..j]
  {
    var t := l + s + r;
    forall k | 0 <= k < |l| + i
      ensures t[k] in cut
    {
      if k < |l| {
        assert t[k] == l[k];
      } else {
        assert t[k] == s[k - |l|];
      }
    }
    forall k | |l| + j <= k < |t|
      ensures t[k] in cut
    {
      if k < |l| + |s| {
        assert t[k] == s[k - |l|];
      } else {
        assert t[k] == r[k - |l| - |s|];
      }
    }
    forall k | 0 <= k < j - i
      ensures t[|l| + i..|l| + j][k] == s[i..j][k]
    {
      assert t[|l| + i + k] == s[i + k];
    }
  }

  /** Characters of `cut` padded around a string make no difference to `trim()`. */
  lemma {:induction false} TrimPadding(l: string, s: string, r: string, cut: set<char>)
    requires forall k :: 0 <= k < |l| ==> l[k] in cut
    requires forall k :: 0 <= k < |r| ==> r[k] in cut
    ensures Trim(l + s + r, cut) == Trim(s, cut)
  {
    TrimAtSpan(s, cut);
    TrimAtSpan(l + s + r, cut);
    SpanPadding(l, s, r, cut);
  }

  /** `TrimPadding` on the spans: the padded string's core holds what the core of `s` holds. */
  lemma {:induction false} SpanPadding(l: string, s: string, r: string, cut: set<char>)
    requires forall k :: 0 <= k < |l| ==> l[k] in cut
    requires forall k :: 0 <= k < |r| ==> r[k] in cut
    ensures var b, b2 := TrimSpan(s, cut), TrimSpan(l + s + r, cut); (l + s + r)[b2.0..b2.1] == s[b.0..b.1]
  {
    var t := l + s + r;
    var b, b2 := TrimSpan(s, cut), TrimSpan(t, cut);
    CoreShift(l, s, r, cut, b.0, b.1);
    TrimCoreUnique(t, cut, |l| + b.0, |l| + b.1, b2.0, b2.1);
  }

  /** Padding a trimmed string with `cut` characters on both sides trims back to it. */
  lemma {:induction false} TrimAround(l: string, m: string, r: string, cut: set<char>)
    requires forall k :: 0 <= k < |l| ==> l[k] in cut
    requires forall k :: 0 <= k < |r| ==> r[k] in cut
    requires Trimmed(m, cut)
    ensures Trim(l + m + r, cut) == m
  {
    TrimPadding(l, m, r, cut);
  }

  /** A hexadecimal digit as C's `isxdigit` accepts it. */
  predicate IsHexDigit(c: char) {
    '0' <= c <= '9' || 'a' <= c <= 'f' || 'A' <= c <= 'F'
  }

  function HexValue(c: char): (v: nat)
    requires IsHexDigit(c)
    ensures v < 16
  {
    if '0' <= c <= '9' then c as nat - '0' as nat
    else if 'a' <= c <= 'f' then c as nat - 'a' as nat + 10
    else c as nat - 'A' as nat + 10
  }

  /**
   * The upper-case hexadecimal digit for a value below 16, the case PHP's
   * encoders write (section 2.1 of RFC 3986 recommends it).
   */
  function HexDigit(v: nat): (c: char)
    requires v < 16
    ensures IsHexDigit(c) && HexValue(c) == v
    ensures !('a' <= c <= 'f')
  {
    if v < 10 then ('0' as nat + v) as char else ('A' as nat + v - 10) as char
  }

  /**
   * `urldecode($s)`: `+` becomes a space, `%` followed by two hex digits becomes
   * the byte they spell (section 2.1 of RFC 3986), and every other character,
   * including a `%` without two hex digits after it, is copied.
   */
  function UrlDecode(s: string): (r: string)
    ensures |r| <= |s|
    ensures (forall i :: 0 <= i < |s| ==> s[i] != '%' && s[i] != '+') ==> r == s
    ensures NothingToDecode(s) ==> r == s
    decreases |s|
  {
    if s == [] then []
    else if s[0] == '+' then
      assert !EscapeFree(s, 0);
      [' '] + UrlDecode(s[1..])
    else if s[0] == '%' && |s| >= 3 && IsHexDigit(s[1]) && IsHexDigit(s[2]) then
      assert !EscapeFree(s, 0);
      [(HexValue(s[1]) * 16 + HexValue(s[2])) as char] + UrlDecode(s[3..])
    else
      assert NothingToDecode(s) ==> NothingToDecode(s[1..]) by {
        if NothingToDecode(s) {
          forall i | 0 <= i < |s| - 1
            ensures EscapeFree(s[1..], i)
          {
            assert EscapeFree(s, i + 1);
          }
        }
      }
      [s[0]] + UrlDecode(s[1..])
  }

  /** Position `i` is neither a `+` nor a `%` that starts an escape. */
  predicate EscapeFree(s: string, i: nat)
    requires i < |s|
  {
    s[i] != '+' && (s[i] == '%' ==> !(i + 2 < |s| && IsHexDigit(s[i + 1]) && IsHexDigit(s[i + 2])))
  }

  /** No `+` and no `%` followed by two hex digits: every `%` present is a stray one. */
  predicate NothingToDecode(s: string) {
    forall i :: 0 <= i < |s| ==> EscapeFree(s, i)
  }

  /** A string of bytes: every character below 256. */
  predicate IsByteString(s: string) {
    forall i :: 0 <= i < |s| ==> s[i] as nat < 256
  }

  /** Writes every byte as a `%XX` escape, the most cautious percent-encoding. */
  function PercentEncode(s: string): (r: string)
    requires IsByteString(s)
    ensures |r| == 3 * |s|
  {
    if s == [] then []
    else
      var b := s[0] as nat;
      ['%', HexDigit(b / 16), HexDigit(b % 16)] + PercentEncode(s[1..])
  }

  /** Decoding undoes percent-encoding: a name stored encoded decodes to itself. */
  lemma {:induction false} UrlDecodePercentEncode(s: string)
    requires IsByteString(s)
    ensures UrlDecode(PercentEncode(s)) == s
  {
    if s != [] {
      DecodeByteEscape(s[0], PercentEncode(s[1..]));
      UrlDecodePercentEncode(s[1..]);
      assert s == [s[0]] + s[1..];
    }
  }

  /** The escape of a byte decodes back to that byte, whatever follows it. */
  lemma DecodeByteEscape(c: char, rest: string)
    requires c as nat < 256
    ensures UrlDecode(['%', HexDigit(c as nat / 16), HexDigit(c as nat % 16)] + rest) == [c] + UrlDecode(rest)
  {
    var e := ['%', HexDigit(c as nat / 16), HexDigit(c as nat % 16)] + rest;
    assert e[3..] == rest;
    DecodeEscape(e);
  }

  /** A character that starts no escape is copied, whatever follows it. */
  lemma DecodeCopied(c: char, rest: string)
    requires c != '%' && c != '+'
    ensures UrlDecode([c] + rest) == [c] + UrlDecode(rest)
  {
    assert ([c] + rest)[1..] == rest;
  }

  /** A `+` decodes to a space, whatever follows it. */
  lemma DecodePlus(rest: string)
    ensures UrlDecode(['+'] + rest) == [' '] + UrlDecode(rest)
  {
    assert (['+'] + rest)[1..] == rest;
  }

  /** The characters `urlencode()` writes as themselves: ASCII letters, digits, `-`, `_` and `.`. */
  predicate IsUnreserved(c: char) {
    'a' <= c <= 'z' || 'A' <= c <= 'Z' || '0' <= c <= '9' || c == '-' || c == '_' || c == '.'
  }

  /**
   * `urlencode($s)`, the form encoding: unreserved characters stay, a space
   * becomes `+`, and every other byte becomes a `%XX` escape.
   */
  function FormEncode(s: string): (r: string)
    requires IsByteString(s)
    ensures |s| <= |r| <= 3 * |s|
    ensures forall i :: 0 <= i < |r| ==> r[i] != ' '
  {
    if s == [] then []
    else
      var head :=
        if IsUnreserved(s[0]) then [s[0]]
        else if s[0] == ' ' then ['+']
        else ['%', HexDigit(s[0] as nat / 16), HexDigit(s[0] as nat % 16)];
      head + FormEncode(s[1..])
  }

  /** The escape of a reserved byte is written in upper case: "/" becomes "%2F". */
  lemma FormEncodeSlash()
    ensures FormEncode("/") == "%2F"
  {
    assert FormEncode("/") == ['%', HexDigit(2), HexDigit(15)] + FormEncode([]);
  }

  /** Decoding undoes the form encoding, `+` for a space included. */
  lemma {:induction false} UrlDecodeFormEncode(s: string)
    requires IsByteString(s)
    ensures UrlDecode(FormEncode(s)) == s
  {
    if s != [] {
      var rest := FormEncode(s[1..]);
      UrlDecodeFormEncode(s[1..]);
      if IsUnreserved(s[0]) {
        DecodeCopied(s[0], rest);
      } else if s[0] == ' ' {
        DecodePlus(rest);
      } else {
        DecodeByteEscape(s[0], rest);
      }
      assert s == [s[0]] + s[1..];
    }
  }

  /** `%` and two hex digits decode to one byte, and decoding continues after them. */
  lemma DecodeEscape(s: string)
    requires |s| >= 3 && s[0] == '%' && IsHexDigit(s[1]) && IsHexDigit(s[2])
    ensures UrlDecode(s) == [(HexValue(s[1]) * 16 + HexValue(s[2])) as char] + UrlDecode(s[3..])
  {
  }

  /** The characters PCRE's `\s` matches without the `u` flag: space, \t, \n, \v, \f and \r. */
  predicate IsPcreSpace(c: char) {
    c == ' ' || c == '\t' || c == '\n' || c == '\U{0B}' || c == '\U{0C}' || c == '\r'
  }

  /** No `\s` character other than a plain space, and never two `\s` characters in a row. */
  predicate SpacesCollapsed(s: string) {
    && (forall i :: 0 <= i < |s| && IsPcreSpace(s[i]) ==> s[i] == ' ')
    && (forall i :: 0 <= i < |s| - 1 ==> !(IsPcreSpace(s[i]) && IsPcreSpace(s[i + 1])))
  }

  /** The characters of `s` that `\s` does not match, in order. */
  function NonSpace(s: string): string {
    if s == [] then [] else (if IsPcreSpace(s[0]) then [] else [s[0]]) + NonSpace(s[1..])
  }

  /**
   * `preg_replace('/\s+/', ' ', $s)`: every maximal run of `\s` characters becomes
   * one space. `inRun` says the previous input character was part of a run whose
   * space has already been written.
   */
  function CollapseRun(s: string, inRun: bool): (r: string)
    ensures |r| <= |s|
    ensures SpacesCollapsed(r)
    ensures inRun ==> r == "" || !IsPcreSpace(r[0])
    decreases |s|
  {
    if s == [] then []
    else if IsPcreSpace(s[0]) then
      var rest := CollapseRun(s[1..], true);
      if inRun then rest else [' '] + rest
    else
      [s[0]] + CollapseRun(s[1..], false)
  }

  /** Collapsing keeps every non-space character, in order, and adds only spaces. */
  lemma {:induction false} CollapseRunContent(s: string, inRun: bool)
    ensures NonSpace(CollapseRun(s, inRun)) == NonSpace(s)
    ensures forall c :: c in CollapseRun(s, inRun) ==> c in s || c == ' '
    decreases |s|
  {
    if s != [] {
      var r := CollapseRun(s, inRun);
      if IsPcreSpace(s[0]) {
        var rest := CollapseRun(s[1..], true);
        CollapseRunContent(s[1..], true);
        if !inRun {
          assert r[1..] == rest;
        }
      } else {
        var rest := CollapseRun(s[1..], false);
        CollapseRunContent(s[1..], false);
        assert r[1..] == rest;
      }
    }
  }

  /** A non-space character at either end of the input stays at that end. */
  lemma {:induction false} CollapseRunEnds(s: string, inRun: bool)
    ensures s != "" && !IsPcreSpace(s[0]) ==> CollapseRun(s, inRun) != "" && CollapseRun(s, inRun)[0] == s[0]
    ensures s != "" && !IsPcreSpace(s[|s| - 1]) ==>
              var r := CollapseRun(s, inRun); r != "" && r[|r| - 1] == s[|s| - 1]
    decreases |s|
  {
    if |s| > 1 {
      CollapseRunEnds(s[1..], IsPcreSpace(s[0]));
    }
  }

  function CollapseSpaces(s: string): (r: string)
    ensures |r| <= |s|
    ensures SpacesCollapsed(r)
  {
    CollapseRun(s, false)
  }

  /**
   * The replacement works piece by piece: collapsing `x + y` is collapsing `x`,
   * then collapsing `y` with the run state `x` ends in.
   */
  lemma {:induction false} CollapseRunAppend(x: string, y: string, inRun: bool)
    ensures CollapseRun(x + y, inRun)
            == CollapseRun(x, inRun) + CollapseRun(y, if x == [] then inRun else IsPcreSpace(x[|x| - 1]))
    decreases |x|
  {
    if x == [] {
      assert x + y == y;
    } else {
      var c, t := x[0], x[1..];
      var st := if t == [] then IsPcreSpace(c) else IsPcreSpace(t[|t| - 1]);
      assert x == [c] + t;
      assert st == IsPcreSpace(x[|x| - 1]);
      CollapseRunAppend(t, y, IsPcreSpace(c));
      CollapseRunAppendStep(c, t, y, inRun, st);
    }
  }

  /** The inductive step of `CollapseRunAppend`: one more character in front. */
  lemma CollapseRunAppendStep(c: char, t: string, y: string, inRun: bool, st: bool)
    requires CollapseRun(t + y, IsPcreSpace(c)) == CollapseRun(t, IsPcreSpace(c)) + CollapseRun(y, st)
    ensures CollapseRun([c] + t + y, inRun) == CollapseRun([c] + t, inRun) + CollapseRun(y, st)
  {
    var head := if IsPcreSpace(c) then (if inRun then [] else [' ']) else [c];
    ConcatAssoc([c], t, y);
    CollapseRunCons(c, t + y, inRun);
    CollapseRunCons(c, t, inRun);
    ConcatAssoc(head, CollapseRun(t, IsPcreSpace(c)), CollapseRun(y, st));
  }

  lemma ConcatAssoc<T>(a: seq<T>, b: seq<T>, c: seq<T>)
    ensures a + (b + c) == a + b + c
  {
  }

  /** Collapsing one character in front of `t`: its contribution, then `t` in the run state it leaves. */
  lemma CollapseRunCons(c: char, t: string, inRun: bool)
    ensures CollapseRun([c] + t, inRun)
            == (if IsPcreSpace(c) then (if inRun then [] else [' ']) else [c]) + CollapseRun(t, IsPcreSpace(c))
  {
    assert ([c] + t)[1..] == t;
  }

  /** A non-empty run of `\s` characters becomes one space, or nothing when its space is already written. */
  lemma {:induction false} CollapseRunOfSpaces(w: string, inRun: bool)
    requires w != [] && forall k :: 0 <= k < |w| ==> IsPcreSpace(w[k])
    ensures CollapseRun(w, inRun) == if inRun then [] else [' ']
    decreases |w|
  {
    if |w| > 1 {
      CollapseRunOfSpaces(w[1..], true);
    }
  }

  /** Before a character `\s` does not match, the run state no longer matters. */
  lemma CollapseRunFreshStart(y: string)
    requires y == [] || !IsPcreSpace(y[0])
    ensures CollapseRun(y, true) == CollapseRun(y, false)
  {
  }

  /**
   * Each maximal run of `\s` becomes a single space in its place: with `w` a
   * non-empty run and `x`, `y` not extending it, the result is `x` collapsed,
   * one space, and `y` collapsed.
   */
  lemma {:induction false} CollapseSpacesRun(x: string, w: string, y: string)
    requires x == [] || !IsPcreSpace(x[|x| - 1])
    requires w != [] && forall k :: 0 <= k < |w| ==> IsPcreSpace(w[k])
    requires y == [] || !IsPcreSpace(y[0])
    ensures CollapseSpaces(x + w + y) == CollapseSpaces(x) + " " + CollapseSpaces(y)
  {
    assert x + w + y == x + (w + y);
    CollapseRunAppend(x, w + y, false);
    RunThenRest(w, y);
  }

  /** A run of `\s` followed by a character it does not match: one space, then the rest collapsed afresh. */
  lemma {:induction false} RunThenRest(w: string, y: string)
    requires w != [] && forall k :: 0 <= k < |w| ==> IsPcreSpace(w[k])
    requires y == [] || !IsPcreSpace(y[0])
    ensures CollapseRun(w + y, false) == " " + CollapseRun(y, false)
  {
    CollapseRunAppend(w, y, false);
    assert IsPcreSpace(w[|w| - 1]);
    CollapseRunOfSpaces(w, false);
    CollapseRunFreshStart(y);
  }

  /** Collapsing leaves a string alone exactly when it is already collapsed. */
  lemma CollapseSpacesFixedPoint(s: string)
    ensures CollapseSpaces(s) == s <==> SpacesCollapsed(s)
  {
    if SpacesCollapsed(s) {
      CollapseRunIdentity(s, false);
    }
  }

  lemma {:induction false} CollapseRunIdentity(s: string, inRun: bool)
    requires SpacesCollapsed(s)
    requires inRun ==> s == "" || !IsPcreSpace(s[0])
    ensures CollapseRun(s, inRun) == s
    decreases |s|
  {
    if s != [] {
      assert SpacesCollapsed(s[1..]) by {
        forall i | 0 <= i < |s| - 2
          ensures !(IsPcreSpace(s[1..][i]) && IsPcreSpace(s[1..][i + 1]))
        {
          assert s[1..][i] == s[i + 1] && s[1..][i + 1] == s[i + 2];
        }
      }
      if IsPcreSpace(s[0]) {
        assert |s| > 1 ==> !IsPcreSpace(s[1]);
        CollapseRunIdentity(s[1..], true);
      } else {
        CollapseRunIdentity(s[1..], false);
      }
      assert s == [s[0]] + s[1..];
    }
  }
}
