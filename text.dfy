/**
 * The Python string built-ins the chatbot relies on: `str.lower`, `str.strip`,
 * `str.replace` for one character, the `in` substring test, `str.split` on one
 * separator character and `str.join`.
 */
module Text {

  /** Python's `str.isspace()`: the ASCII whitespace and separator controls and
      the Unicode whitespace code points. `str.strip()` removes exactly these. */
  predicate IsSpace(c: char) {
    var n := c as int;
    n == 0x20 || 0x09 <= n <= 0x0D || 0x1C <= n <= 0x1F || n == 0x85 || n == 0xA0 || n == 0x1680
    || 0x2000 <= n <= 0x200A || n == 0x2028 || n == 0x2029 || n == 0x202F || n == 0x205F || n == 0x3000
  }

  // ---------------------------------------------------------------------------
  // Case mapping (ASCII letters only)
  // ---------------------------------------------------------------------------

  predicate IsUpperAscii(c: char) { 'A' <= c <= 'Z' }

  function LowerChar(c: char): char {
    if IsUpperAscii(c) then (c as int + 32) as char else c
  }

  function UpperChar(c: char): char {
    if 'a' <= c <= 'z' then (c as int - 32) as char else c
  }

  /** `s.lower()` restricted to ASCII letters. */
  function Lower(s: string): (r: string)
    ensures |r| == |s|
  {
    seq(|s|, i requires 0 <= i < |s| => LowerChar(s[i]))
  }

  /** `s.upper()` restricted to ASCII letters; used only to state case-insensitivity. */
  function Upper(s: string): (r: string)
    ensures |r| == |s|
  {
    seq(|s|, i requires 0 <= i < |s| => UpperChar(s[i]))
  }

  /** Lower-casing forgets case: a string and its upper-cased form lower alike. */
  lemma LowerOfUpper(s: string)
    ensures Lower(Upper(s)) == Lower(s)
  {
    assert forall i :: 0 <= i < |s| ==> Lower(Upper(s))[i] == Lower(s)[i];
  }

  /** Text without upper-case ASCII letters is its own lower-cased form. */
  lemma LowerOfLowercase(s: string)
    requires forall j :: 0 <= j < |s| ==> !IsUpperAscii(s[j])
    ensures Lower(s) == s
  {
    assert forall i :: 0 <= i < |s| ==> Lower(s)[i] == s[i];
  }

  // ---------------------------------------------------------------------------
  // Stripping
  // ---------------------------------------------------------------------------

  /** `s.lstrip()` */
  function StripLeft(s: string): (r: string)
    ensures |r| <= |s|
    ensures r == [] || !IsSpace(r[0])
    decreases |s|
  {
    if s != [] && IsSpace(s[0]) then StripLeft(s[1..]) else s
  }

  /** `lstrip` removes a prefix of whitespace only. */
  lemma {:induction false} StripLeftRemovesSpace(s: string)
    ensures StripLeft(s) == s[|s| - |StripLeft(s)|..]
    ensures forall k :: 0 <= k < |s| - |StripLeft(s)| ==> IsSpace(s[k])
    decreases |s|
  {
    if s != [] && IsSpace(s[0]) {
      StripLeftRemovesSpace(s[1..]);
      assert s[1..][|s[1..]| - |StripLeft(s)|..] == s[|s| - |StripLeft(s)|..];
      forall k | 0 < k < |s| - |StripLeft(s)| ensures IsSpace(s[k]) {
        assert s[k] == s[1..][k - 1];
      }
    }
  }

  /** `s.rstrip()` */
  function StripRight(s: string): (r: string)
    ensures |r| <= |s|
    ensures r == [] || !IsSpace(r[|r| - 1])
    decreases |s|
  {
    if s != [] && IsSpace(s[|s| - 1]) then StripRight(s[..|s| - 1]) else s
  }

  /** `rstrip` removes a suffix of whitespace only. */
  lemma {:induction false} StripRightRemovesSpace(s: string)
    ensures StripRight(s) == s[..|StripRight(s)|]
    ensures forall k :: |StripRight(s)| <= k < |s| ==> IsSpace(s[k])
    decreases |s|
  {
    if s != [] && IsSpace(s[|s| - 1]) {
      StripRightRemovesSpace(s[..|s| - 1]);
      assert s[..|s| - 1][..|StripRight(s)|] == s[..|StripRight(s)|];
      forall k | |StripRight(s)| <= k < |s| - 1 ensures IsSpace(s[k]) {
        assert s[k] == s[..|s| - 1][k];
      }
    }
  }

  /** `s.strip()` */
  function Strip(s: string): string {
    StripRight(StripLeft(s))
  }

  /** What `strip` does: it returns the part of `s` between a run of leading
      and a run of trailing whitespace, and that part neither begins nor ends
      with whitespace. */
  lemma StripShape(s: string) returns (lead: nat)
    ensures lead + |Strip(s)| <= |s| && Strip(s) == s[lead..lead + |Strip(s)|]
    ensures forall k :: 0 <= k < lead ==> IsSpace(s[k])
    ensures forall k :: lead + |Strip(s)| <= k < |s| ==> IsSpace(s[k])
    ensures Strip(s) == [] || (!IsSpace(Strip(s)[0]) && !IsSpace(Strip(s)[|Strip(s)| - 1]))
  {
    StripLeftRemovesSpace(s);
    StripRightRemovesSpace(StripLeft(s));
    lead := TrimmedShape(s, StripLeft(s), Strip(s));
  }

  /** The shape of `r` got by cutting a whitespace prefix off `s` to leave `l`,
      then a whitespace suffix off `l`. */
  lemma TrimmedShape(s: string, l: string, r: string) returns (lead: nat)
    requires |l| <= |s| && l == s[|s| - |l|..] && forall k :: 0 <= k < |s| - |l| ==> IsSpace(s[k])
    requires l == [] || !IsSpace(l[0])
    requires |r| <= |l| && r == l[..|r|] && forall k :: |r| <= k < |l| ==> IsSpace(l[k])
    requires r == [] || !IsSpace(r[|r| - 1])
    ensures lead + |r| <= |s| && r == s[lead..lead + |r|]
    ensures forall k :: 0 <= k < lead ==> IsSpace(s[k])
    ensures forall k :: lead + |r| <= k < |s| ==> IsSpace(s[k])
    ensures r == [] || (!IsSpace(r[0]) && !IsSpace(r[|r| - 1]))
  {
    lead := |s| - |l|;
    assert r == s[lead..lead + |r|];
    forall k | lead + |r| <= k < |s| ensures IsSpace(s[k]) {
      assert s[k] == l[k - lead];
    }
    if r != [] {
      assert r[0] == l[0];
    }
  }

  /** Stripping adds no character. */
  lemma StripKeepsChars(s: string)
    ensures forall c :: c in Strip(s) ==> c in s
  {
    var lead := StripShape(s);
    forall c | c in Strip(s) ensures c in s {
      var k :| 0 <= k < |Strip(s)| && Strip(s)[k] == c;
      assert s[lead + k] == c;
    }
  }

  /** Text that neither begins nor ends with whitespace is left as it is. */
  lemma StripUnpadded(s: string)
    requires s == [] || (!IsSpace(s[0]) && !IsSpace(s[|s| - 1]))
    ensures Strip(s) == s
  {
    assert StripLeft(s) == s;
  }

  /** Stripping twice is stripping once. */
  lemma StripIdempotent(s: string)
    ensures Strip(Strip(s)) == Strip(s)
  {
    var r := Strip(s);
    var lead := StripShape(s);
    assert StripLeft(r) == r;
  }

  // ---------------------------------------------------------------------------
  // Replacing one character
  // ---------------------------------------------------------------------------

  /** `s.replace(from, to)` for one-character `from` and `to`. */
  function ReplaceChar(s: string, from: char, to: char): (r: string)
    ensures |r| == |s|
  {
    seq(|s|, i requires 0 <= i < |s| => if s[i] == from then to else s[i])
  }

  // ---------------------------------------------------------------------------
  // Substrings
  // ---------------------------------------------------------------------------

  /** `k` occurs in `s` at offset `i`. */
  predicate OccursAt(s: string, k: string, i: int) {
    0 <= i <= |s| - |k| && s[i..i + |k|] == k
  }

  /** `k` occurs in `s` at some offset. */
  ghost predicate IsInfix(s: string, k: string) {
    exists i :: OccursAt(s, k, i)
  }

  predicate StartsWith(s: string, p: string) {
    |p| <= |s| && s[..|p|] == p
  }

  /** Python's `k in s`: try every offset from the left. */
  function Contains(s: string, k: string): bool
    decreases |s|
  {
    StartsWith(s, k) || (s != [] && Contains(s[1..], k))
  }

  /** The offset-by-offset search finds `k` exactly when `k` occurs in `s`. */
  lemma {:induction false} ContainsIffInfix(s: string, k: string)
    ensures Contains(s, k) <==> IsInfix(s, k)
    decreases |s|
  {
    if s != [] {
      ContainsIffInfix(s[1..], k);
      if StartsWith(s, k) {
        assert OccursAt(s, k, 0);
      }
      if IsInfix(s[1..], k) {
        var i :| OccursAt(s[1..], k, i);
        assert s[i + 1..i + 1 + |k|] == s[1..][i..i + |k|];
        assert OccursAt(s, k, i + 1);
      }
      if IsInfix(s, k) && !StartsWith(s, k) {
        var i :| OccursAt(s, k, i);
        assert i != 0;
        assert s[1..][i - 1..i - 1 + |k|] == k;
        assert OccursAt(s[1..], k, i - 1);
      }
    } else if IsInfix(s, k) {
      var i :| OccursAt(s, k, i);
      assert k == [];
      assert StartsWith(s, k);
    } else if StartsWith(s, k) {
      assert OccursAt(s, k, 0);
    }
  }

  /** An occurrence inside an occurrence is an occurrence. */
  lemma InfixTransitive(k: string, m: string, s: string)
    requires IsInfix(m, k) && IsInfix(s, m)
    ensures IsInfix(s, k)
  {
    var i :| OccursAt(m, k, i);
    var j :| OccursAt(s, m, j);
    forall x | 0 <= x < |k| ensures s[j + i + x] == k[x] {
      assert s[j + i + x] == m[i + x];
    }
    assert s[j + i..j + i + |k|] == k;
    assert OccursAt(s, k, j + i);
  }

  /** An occurrence of `k` in `a + [c] + b` that does not use the character `c`
      lies in `a` or in `b`. */
  lemma InfixAcrossSeparator(k: string, a: string, c: char, b: string)
    requires c !in k && IsInfix(a + [c] + b, k)
    ensures IsInfix(a, k) || IsInfix(b, k)
  {
    var s := a + [c] + b;
    var i :| OccursAt(s, k, i);
    if i + |k| <= |a| {
      assert a[i..i + |k|] == s[i..i + |k|];
      assert OccursAt(a, k, i);
    } else if i > |a| {
      var d := i - |a| - 1;
      forall x | 0 <= x < |k| ensures b[d + x] == k[x] {
        assert s[i + x] == b[d + x];
      }
      assert b[d..d + |k|] == k;
      assert OccursAt(b, k, d);
    } else {
      // the occurrence would cover the separator at index |a|
      OccurrenceAt(k, s, i, |a| - i);
      assert false;
    }
  }

  lemma OccurrenceAt(k: string, s: string, i: int, x: int)
    requires OccursAt(s, k, i) && 0 <= x < |k|
    ensures s[i + x] == k[x]
  {
    assert s[i..i + |k|][x] == k[x];
  }

  // ---------------------------------------------------------------------------
  // Splitting and joining on one separator character
  // ---------------------------------------------------------------------------

  /** `s.split(sep)`: always at least one piece, empty pieces kept. */
  function Split(s: string, sep: char): (r: seq<string>)
    ensures |r| >= 1 && |r[0]| <= |s|
    decreases |s|
  {
    if s == [] then [[]]
    else
      var rest := Split(s[1..], sep);
      if s[0] == sep then [[]] + rest else [[s[0]] + rest[0]] + rest[1..]
  }

  /** `sep.join(ls)` */
  function Join(ls: seq<string>, sep: char): string
    decreases |ls|
  {
    if ls == [] then []
    else if |ls| == 1 then ls[0]
    else ls[0] + [sep] + Join(ls[1..], sep)
  }

  /** Joining the pieces of a split gives the string back. */
  lemma {:induction false} JoinSplit(s: string, sep: char)
    ensures Join(Split(s, sep), sep) == s
    decreases |s|
  {
    if s != [] {
      var rest := Split(s[1..], sep);
      JoinSplit(s[1..], sep);
      if s[0] == sep {
        assert Join([[]] + rest, sep) == [] + [sep] + Join(rest, sep);
      } else if |rest| == 1 {
        assert Split(s, sep) == [[s[0]] + rest[0]];
      } else {
        assert Split(s, sep)[1..] == rest[1..];
      }
    }
  }

  /** Splitting a piece free of `sep` followed by `sep` peels that piece off. */
  lemma {:induction false} SplitPiece(l: string, sep: char, t: string)
    requires sep !in l
    ensures Split(l + [sep] + t, sep) == [l] + Split(t, sep)
    ensures Split(l, sep) == [l]
    decreases |l|
  {
    if l == [] {
      assert [] + [sep] + t == [sep] + t;
      assert ([sep] + t)[1..] == t;
    } else {
      SplitPiece(l[1..], sep, t);
      assert (l + [sep] + t)[1..] == l[1..] + [sep] + t;
      assert [l[0]] + l[1..] == l;
    }
  }

  /** Three pieces free of `sep`, joined by it, split back into those three. */
  lemma SplitThree(a: string, m: string, b: string, sep: char)
    requires sep !in a && sep !in m && sep !in b
    ensures Split(a + [sep] + m + [sep] + b, sep) == [a, m, b]
  {
    var tail := m + [sep] + b;
    assert a + [sep] + m + [sep] + b == a + [sep] + tail;
    SplitPiece(b, sep, []);
    assert Split(b, sep) == [b];
    SplitPiece(m, sep, b);
    assert Split(tail, sep) == [m, b];
    SplitPiece(a, sep, tail);
    assert Split(a + [sep] + tail, sep) == [a] + [m, b];
  }

  /** Splitting what was joined gives the pieces back, when no piece holds `sep`. */
  lemma {:induction false} SplitJoin(ls: seq<string>, sep: char)
    requires ls != []
    requires forall i :: 0 <= i < |ls| ==> sep !in ls[i]
    ensures Split(Join(ls, sep), sep) == ls
    decreases |ls|
  {
    if |ls| == 1 {
      SplitPiece(ls[0], sep, []);
    } else {
      SplitJoin(ls[1..], sep);
      SplitPiece(ls[0], sep, Join(ls[1..], sep));
    }
  }

  /** Every piece of a split occurs in the string; the first piece is a prefix. */
  lemma {:induction false} PieceOffset(s: string, sep: char, i: nat) returns (o: nat)
    requires i < |Split(s, sep)|
    ensures o + |Split(s, sep)[i]| <= |s| && s[o..o + |Split(s, sep)[i]|] == Split(s, sep)[i]
    ensures i == 0 ==> o == 0
    decreases |s|
  {
    if s == [] {
      o := 0;
    } else {
      var rest := Split(s[1..], sep);
      var pieces := Split(s, sep);
      if s[0] == sep {
        assert pieces == [[]] + rest;
        if i == 0 {
          o := 0;
        } else {
          assert pieces[i] == rest[i - 1];
          var o' := PieceOffset(s[1..], sep, i - 1);
          o := o' + 1;
          ShiftPiece(s, rest[i - 1], o');
        }
      } else if i == 0 {
        assert pieces[0] == [s[0]] + rest[0];
        var o' := PieceOffset(s[1..], sep, 0);
        o := 0;
        ConsPiece(s, rest[0]);
      } else {
        assert pieces[i] == rest[i];
        var o' := PieceOffset(s[1..], sep, i);
        o := o' + 1;
        ShiftPiece(s, rest[i], o');
      }
    }
  }

  /** A piece of the tail at offset `o` is a piece of the whole at `o + 1`. */
  lemma ShiftPiece(s: string, piece: string, o: nat)
    requires s != [] && o + |piece| <= |s| - 1 && s[1..][o..o + |piece|] == piece
    ensures s[o + 1..o + 1 + |piece|] == piece
  {
    forall k | 0 <= k < |piece| ensures s[o + 1..o + 1 + |piece|][k] == piece[k] {
      assert piece[k] == s[1..][o..o + |piece|][k];
    }
  }

  /** A prefix of the tail, after the first character, is a prefix of the whole. */
  lemma ConsPiece(s: string, piece: string)
    requires s != [] && |piece| <= |s| - 1 && s[1..][..|piece|] == piece
    ensures s[..1 + |piece|] == [s[0]] + piece
  {
    assert s[..1 + |piece|] == [s[0]] + s[1..][..|piece|];
  }

  lemma PieceContains(s: string, sep: char, i: nat, k: string)
    requires i < |Split(s, sep)| && Contains(Split(s, sep)[i], k)
    ensures Contains(s, k)
  {
    var line := Split(s, sep)[i];
    var o := PieceOffset(s, sep, i);
    assert OccursAt(s, line, o);
    ContainsIffInfix(line, k);
    ContainsIffInfix(s, k);
    InfixTransitive(k, line, s);
  }

  /** Joining pieces with `sep` creates no new occurrence of a `k` free of `sep`. */
  lemma {:induction false} JoinContains(ls: seq<string>, sep: char, k: string)
    requires k != [] && sep !in k
    requires forall i :: 0 <= i < |ls| ==> !Contains(ls[i], k)
    ensures !Contains(Join(ls, sep), k)
    decreases |ls|
  {
    if |ls| > 1 {
      JoinContains(ls[1..], sep, k);
      var rest := Join(ls[1..], sep);
      if Contains(Join(ls, sep), k) {
        ContainsIffInfix(Join(ls, sep), k);
        InfixAcrossSeparator(k, ls[0], sep, rest);
        ContainsIffInfix(ls[0], k);
        ContainsIffInfix(rest, k);
        assert false;
      }
    }
  }

  /** What is stripped from `s` occurs in `s`. */
  lemma StripContains(s: string, k: string)
    requires Contains(Strip(s), k)
    ensures Contains(s, k)
  {
    var lead := StripShape(s);
    assert OccursAt(s, Strip(s), lead);
    ContainsIffInfix(Strip(s), k);
    ContainsIffInfix(s, k);
    InfixTransitive(k, Strip(s), s);
  }
}
