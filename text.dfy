/**
 * Character classes and string helpers shared by the model: the Rust
 * `str` operations the tool uses (`trim`, `split`, `contains`, `replace`,
 * `len` in bytes), written over `string`, a sequence of Unicode scalar values.
 */
module Text {

  datatype Option<+T> = None | Some(value: T)

  /** Unicode White_Space: what `char::is_whitespace`, `str::trim` and the regex class `\s` accept. */
  predicate IsWhitespace(c: char) {
    var n := c as int;
    (0x09 <= n <= 0x0D) || n == 0x20 || n == 0x85 || n == 0xA0 || n == 0x1680
    || (0x2000 <= n <= 0x200A) || n == 0x2028 || n == 0x2029 || n == 0x202F
    || n == 0x205F || n == 0x3000
  }

  /** The ASCII part of the regex class `\w`. */
  predicate IsWordChar(c: char) {
    ('a' <= c <= 'z') || ('A' <= c <= 'Z') || ('0' <= c <= '9') || c == '_'
  }

  /** Every character of `s[lo..hi]` is whitespace. */
  predicate AllWhitespace(s: string, lo: nat, hi: nat)
    requires lo <= hi <= |s|
  {
    forall k :: lo <= k < hi ==> IsWhitespace(s[k])
  }

  /** Neither end of `s` is whitespace: `s` is what `trim` leaves. */
  predicate IsTrimmed(s: string) {
    s == [] || (!IsWhitespace(s[0]) && !IsWhitespace(s[|s| - 1]))
  }

  function TrimStart(s: string): (r: string)
    ensures |r| <= |s| && r == s[|s| - |r|..]
    ensures forall k :: 0 <= k < |s| - |r| ==> IsWhitespace(s[k])
    ensures r == [] || !IsWhitespace(r[0])
  {
    if s != [] && IsWhitespace(s[0]) then TrimStart(s[1..]) else s
  }

  function TrimEnd(s: string): (r: string)
    ensures |r| <= |s| && r == s[..|r|]
    ensures forall k :: |r| <= k < |s| ==> IsWhitespace(s[k])
    ensures r == [] || !IsWhitespace(r[|r| - 1])
  {
    if s != [] && IsWhitespace(s[|s| - 1]) then TrimEnd(s[..|s| - 1]) else s
  }

  /** `r` is `s[i..]` cut short, and only whitespace of `s` lies outside it. */
  predicate CoreOf(s: string, r: string, i: int) {
    0 <= i <= |s| - |r| && r == s[i..i + |r|]
    && AllWhitespace(s, 0, i) && AllWhitespace(s, i + |r|, |s|)
  }

  /** `str::trim`: the slice of `s` left once whitespace is removed from both ends. */
  function Trim(s: string): (r: string)
    ensures IsTrimmed(r)
    ensures exists i :: CoreOf(s, r, i)
    ensures forall k :: 0 <= k < |r| ==> r[k] in s
  {
    TrimIsCore(s);
    TrimEnd(TrimStart(s))
  }

  lemma TrimIsCore(s: string)
    ensures CoreOf(s, TrimEnd(TrimStart(s)), |s| - |TrimStart(s)|)
  {
    var t := TrimStart(s);
    CoreOfPieces(s, t, TrimEnd(t), |s| - |t|);
  }

  /** Whitespace cut from the front of `s`, then from the end of what is left, leaves a core of `s`. */
  lemma CoreOfPieces(s: string, t: string, r: string, i: nat)
    requires i <= |s| && t == s[i..] && AllWhitespace(s, 0, i)
    requires |r| <= |t| && r == t[..|r|]
    requires forall k :: |r| <= k < |t| ==> IsWhitespace(t[k])
    ensures CoreOf(s, r, i)
  {
    forall k | i + |r| <= k < |s|
      ensures IsWhitespace(s[k])
    {
      assert s[k] == t[k - i];
    }
  }

  lemma TrimOfTrimmed(s: string)
    requires IsTrimmed(s)
    ensures Trim(s) == s
  {
    assert TrimStart(s) == s;
    assert TrimEnd(s) == s;
  }

  /** `str::split` at a single character: never empty, and no piece holds the separator. */
  function Split(s: string, sep: char): (r: seq<string>)
    ensures |r| >= 1
    ensures forall k :: 0 <= k < |r| ==> sep !in r[k]
  {
    if s == [] then [[]]
    else
      var rest := Split(s[1..], sep);
      if s[0] == sep then [[]] + rest else [[s[0]] + rest[0]] + rest[1..]
  }

  /** `join`: the parts with `sep` between neighbours. */
  function Join(parts: seq<string>, sep: string): string
  {
    if |parts| == 0 then []
    else if |parts| == 1 then parts[0]
    else parts[0] + sep + Join(parts[1..], sep)
  }

  lemma {:induction false} JoinConsFirst(c: char, parts: seq<string>, sep: string)
    requires |parts| >= 1
    ensures Join([[c] + parts[0]] + parts[1..], sep) == [c] + Join(parts, sep)
  {
    var ps := [[c] + parts[0]] + parts[1..];
    assert ps[1..] == parts[1..];
  }

  /** Joining the pieces of a split gives back the string. */
  lemma {:induction false} JoinSplit(s: string, sep: char)
    ensures Join(Split(s, sep), [sep]) == s
  {
    if s != [] {
      var rest := Split(s[1..], sep);
      JoinSplit(s[1..], sep);
      if s[0] == sep {
        var ps := [[]] + rest;
        assert ps[1..] == rest;
        assert Join(ps, [sep]) == [] + [sep] + Join(rest, [sep]);
        assert s == [s[0]] + s[1..];
      } else {
        JoinConsFirst(s[0], rest, [sep]);
        assert s == [s[0]] + s[1..];
      }
    }
  }

  lemma {:induction false} SplitWithoutSeparator(s: string, sep: char)
    requires sep !in s
    ensures Split(s, sep) == [s]
  {
    if s != [] {
      assert s[0] != sep && sep !in s[1..];
      SplitWithoutSeparator(s[1..], sep);
      assert [s[0]] + s[1..] == s;
    }
  }

  lemma {:induction false} SplitAfterPiece(a: string, sep: char, b: string)
    requires sep !in a
    ensures Split(a + [sep] + b, sep) == [a] + Split(b, sep)
  {
    var s := a + [sep] + b;
    if a == [] {
      assert s[1..] == b;
    } else {
      assert s[1..] == a[1..] + [sep] + b;
      SplitAfterPiece(a[1..], sep, b);
      assert [a[0]] + a[1..] == a;
    }
  }

  /** Splitting a join of separator-free pieces gives back the pieces. */
  lemma {:induction false} SplitJoin(parts: seq<string>, sep: char)
    requires |parts| >= 1
    requires forall k :: 0 <= k < |parts| ==> sep !in parts[k]
    ensures Split(Join(parts, [sep]), sep) == parts
  {
    if |parts| == 1 {
      SplitWithoutSeparator(parts[0], sep);
    } else {
      SplitJoin(parts[1..], sep);
      SplitAfterPiece(parts[0], sep, Join(parts[1..], [sep]));
      assert [parts[0]] + parts[1..] == parts;
    }
  }

  /** `str::contains` with a string pattern. */
  predicate Contains(s: string, t: string) {
    exists i | 0 <= i <= |s| - |t| :: OccursAt(s, t, i)
  }

  /** `t` occurs in `s` starting at index `i`. */
  predicate OccursAt(s: string, t: string, i: int) {
    0 <= i <= |s| - |t| && s[i..i + |t|] == t
  }

  lemma ContainsMiddle(a: string, b: string, c: string)
    ensures Contains(a + b + c, b)
  {
    var s := a + b + c;
    assert OccursAt(s, b, |a|);
  }

  /**
   * `str::replace`: every non-overlapping occurrence of `from`, found left to
   * right, is replaced by `to`; an empty `from` puts `to` before every
   * character and at the end.
   */
  function ReplaceAll(s: string, from: string, to: string): (r: string)
    decreases |s|
  {
    if from == [] then
      (if s == [] then to else to + [s[0]] + ReplaceAll(s[1..], from, to))
    else if |s| < |from| then s
    else if s[..|from|] == from then to + ReplaceAll(s[|from|..], from, to)
    else [s[0]] + ReplaceAll(s[1..], from, to)
  }

  /** Replacing a non-empty pattern that does not occur leaves the text as it is. */
  lemma {:induction false} ReplaceAbsent(s: string, from: string, to: string)
    requires from != [] && !Contains(s, from)
    ensures ReplaceAll(s, from, to) == s
    decreases |s|
  {
    if |s| >= |from| {
      assert !OccursAt(s, from, 0);
      assert !Contains(s[1..], from) by {
        if Contains(s[1..], from) {
          var i :| 0 <= i <= |s[1..]| - |from| && OccursAt(s[1..], from, i);
          assert s[i + 1..i + 1 + |from|] == from;
          assert OccursAt(s, from, i + 1);
        }
      }
      ReplaceAbsent(s[1..], from, to);
      assert [s[0]] + s[1..] == s;
    }
  }

  /** The number of bytes the UTF-8 encoding of `c` takes. */
  function Utf8Width(c: char): (w: nat)
    ensures 1 <= w <= 4
  {
    if c as int < 0x80 then 1
    else if c as int < 0x800 then 2
    else if c as int < 0x10000 then 3
    else 4
  }

  /** `String::len`: the length of the UTF-8 encoding, at least one byte per character. */
  function Utf8Len(s: string): (n: nat)
    ensures |s| <= n <= 4 * |s|
    ensures (forall k :: 0 <= k < |s| ==> s[k] as int < 0x80) ==> n == |s|
  {
    if s == [] then 0 else Utf8Len(s[..|s| - 1]) + Utf8Width(s[|s| - 1])
  }
}
