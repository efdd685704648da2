/**
 * Body replacement (`modify_function_bodies`, src/main.rs): the regex
 * `fn\s+(\w+)\s*\((.*?)\)\s*\{([\s\S]*?)\}` is run over the raw text of a
 * file; the functions whose captured body mentions the target are its
 * callers, and every match that is neither a caller nor the target itself
 * is cut down to `fn name(...) { ... }`.
 *
 * The regex is written out as a scanner that follows the regex crate's
 * leftmost-first, lazy-quantifier choices for this one pattern. The source
 * replaces a match by searching for its TEXT (`str::replace`), which also
 * rewrites every other place where that text occurs. `ModifyFunctionBodies`
 * and `ModifiedContent` model that as written, and the tier-0 summary of
 * src/main.rs:107 uses `ModifiedContent`. `CollapseBodies` is the corrected
 * version beside it: it replaces each match where it was found.
 */
module Collapse {
  import opened Text
  import opened Patterns

  /**
   * One match of the function pattern: where it starts and ends, where its
   * name, parentheses and braces lie, and the captured name, body and whole text.
   */
  datatype FnMatch = FnMatch(
    start: nat, nameStart: nat, nameEnd: nat, open: nat, close: nat, brace: nat, end: nat,
    name: string, body: string, whole: string)

  predicate AllWord(s: string, lo: nat, hi: nat)
    requires lo <= hi <= |s|
  {
    forall k :: lo <= k < hi ==> IsWordChar(s[k])
  }

  predicate NoneIs(s: string, lo: nat, hi: nat, c: char)
    requires lo <= hi <= |s|
  {
    forall k :: lo <= k < hi ==> s[k] != c
  }

  /**
   * `m` is a match of `fn\s+(\w+)\s*\((.*?)\)\s*\{([\s\S]*?)\}` in `s`: the
   * parameters stay on one line, the body holds no `}`, and the captures are
   * the slices of `s` they name.
   */
  predicate Shaped(s: string, m: FnMatch) {
    && Placed(s, m)
    && m.name == s[m.nameStart..m.nameEnd]
    && m.body == s[m.brace + 1..m.end - 1]
    && m.whole == s[m.start..m.end]
  }

  /** The boundaries of `m` lie in `s` as the pattern demands, whatever its captures hold. */
  predicate Placed(s: string, m: FnMatch) {
    && m.start + 2 < m.nameStart < m.nameEnd <= m.open < m.close < m.brace
    && m.brace + 1 < m.end <= |s|
    && s[m.start] == 'f' && s[m.start + 1] == 'n'
    && AllWhitespace(s, m.start + 2, m.nameStart)
    && AllWord(s, m.nameStart, m.nameEnd)
    && AllWhitespace(s, m.nameEnd, m.open) && s[m.open] == '('
    && NoneIs(s, m.open + 1, m.close, '\n') && s[m.close] == ')'
    && AllWhitespace(s, m.close + 1, m.brace) && s[m.brace] == '{'
    && NoneIs(s, m.brace + 1, m.end - 1, '}') && s[m.end - 1] == '}'
  }

  /** The end of the run of whitespace that starts at `p` (`\s*`, greedy). */
  function SkipWhitespace(s: string, p: nat): (q: nat)
    requires p <= |s|
    ensures p <= q <= |s| && AllWhitespace(s, p, q)
    ensures q == |s| || !IsWhitespace(s[q])
    decreases |s| - p
  {
    if p < |s| && IsWhitespace(s[p]) then SkipWhitespace(s, p + 1) else p
  }

  /** The end of the run of word characters that starts at `p` (`\w*`, greedy). */
  function SkipWord(s: string, p: nat): (q: nat)
    requires p <= |s|
    ensures p <= q <= |s| && AllWord(s, p, q)
    ensures q == |s| || !IsWordChar(s[q])
    decreases |s| - p
  {
    if p < |s| && IsWordChar(s[p]) then SkipWord(s, p + 1) else p
  }

  /** The first `c` at or after `p`. */
  function FindChar(s: string, c: char, p: nat): (r: Option<nat>)
    requires p <= |s|
    ensures r.Some? ==> p <= r.value < |s| && s[r.value] == c && NoneIs(s, p, r.value, c)
    ensures r.None? ==> NoneIs(s, p, |s|, c)
    decreases |s| - p
  {
    if p == |s| then None
    else if s[p] == c then Some(p)
    else FindChar(s, c, p + 1)
  }

  /**
   * The lazy tail `(.*?)\)\s*\{([\s\S]*?)\}` from `p`: the first `)` on the
   * line that is followed by optional whitespace, a `{` and, somewhere
   * after it, a `}`. Returns that `)`, that `{` and the first `}` after it.
   */
  function CloseParams(s: string, p: nat): (r: Option<(nat, nat, nat)>)
    requires p <= |s|
    ensures r.Some? ==>
              && p <= r.value.0 < r.value.1 < r.value.2 < |s|
              && NoneIs(s, p, r.value.0, '\n') && s[r.value.0] == ')'
              && AllWhitespace(s, r.value.0 + 1, r.value.1) && s[r.value.1] == '{'
              && NoneIs(s, r.value.1 + 1, r.value.2, '}') && s[r.value.2] == '}'
    decreases |s| - p
  {
    if p == |s| || s[p] == '\n' then None
    else if s[p] == ')' then
      var b := SkipWhitespace(s, p + 1);
      if b < |s| && s[b] == '{' then
        match FindChar(s, '}', b + 1)
        case Some(e) => Some((p, b, e))
        case None => CloseParams(s, p + 1)
      else CloseParams(s, p + 1)
    else CloseParams(s, p + 1)
  }

  /** The match of the function pattern that starts at `i`, if any. */
  function MatchAt(s: string, i: nat): (r: Option<FnMatch>)
    requires i <= |s|
    ensures r.Some? ==> r.value.start == i && Shaped(s, r.value)
  {
    if i + 2 <= |s| && s[i] == 'f' && s[i + 1] == 'n' then
      var a := SkipWhitespace(s, i + 2);
      var c := SkipWord(s, a);
      var q := SkipWhitespace(s, c);
      if a == i + 2 || c == a || q == |s| || s[q] != '(' then None
      else
        MatchTailShaped(s, i, a, c, q);
        MatchTail(s, i, a, c, q)
    else None
  }

  /** The rest of the match once `fn`, the name and `(` have been read: `q` is the `(`. */
  function MatchTail(s: string, i: nat, a: nat, c: nat, q: nat): Option<FnMatch>
    requires i <= a <= c <= q < |s|
  {
    match CloseParams(s, q + 1)
    case None => None
    case Some(t) => Some(FnMatch(i, a, c, q, t.0, t.1, t.2 + 1, s[a..c], s[t.1 + 1..t.2], s[i..t.2 + 1]))
  }

  lemma MatchTailShaped(s: string, i: nat, a: nat, c: nat, q: nat)
    requires i + 2 < a < c <= q < |s| && s[i] == 'f' && s[i + 1] == 'n' && s[q] == '('
    requires AllWhitespace(s, i + 2, a) && AllWord(s, a, c) && AllWhitespace(s, c, q)
    ensures var r := MatchTail(s, i, a, c, q);
            r.Some? ==> r.value.start == i && Shaped(s, r.value)
  {
    if CloseParams(s, q + 1).Some? {
      var t := CloseParams(s, q + 1).value;
      MatchTailFound(s, i, a, c, q, t);
      PiecesPlaced(s, FnMatch(i, a, c, q, t.0, t.1, t.2 + 1, s[a..c], s[t.1 + 1..t.2], s[i..t.2 + 1]));
    }
  }

  /** Pieces read in the order of the pattern are placed as the pattern demands. */
  lemma PiecesPlaced(s: string, m: FnMatch)
    requires m.start + 2 < m.nameStart < m.nameEnd <= m.open < m.close < m.brace < m.end - 1 && m.end <= |s|
    requires s[m.start] == 'f' && s[m.start + 1] == 'n' && s[m.open] == '('
    requires AllWhitespace(s, m.start + 2, m.nameStart) && AllWord(s, m.nameStart, m.nameEnd)
    requires AllWhitespace(s, m.nameEnd, m.open)
    requires NoneIs(s, m.open + 1, m.close, '\n') && s[m.close] == ')'
    requires AllWhitespace(s, m.close + 1, m.brace) && s[m.brace] == '{'
    requires NoneIs(s, m.brace + 1, m.end - 1, '}') && s[m.end - 1] == '}'
    ensures Placed(s, m)
  {
  }

  /** `ms` are matches in `s`, in order, none starting before `from` and none overlapping. */
  predicate Successive(s: string, ms: seq<FnMatch>, from: nat)
    decreases |ms|
  {
    ms == [] || (from <= ms[0].start && Shaped(s, ms[0]) && Successive(s, ms[1..], ms[0].end))
  }

  /**
   * `captures_iter` from `from`: the leftmost match, then the matches after
   * its end. No match starts before the first one returned.
   */
  function Matches(s: string, from: nat): (ms: seq<FnMatch>)
    requires from <= |s|
    ensures Successive(s, ms, from)
    ensures forall j | from <= j < (if ms == [] then |s| else ms[0].start) :: MatchAt(s, j).None?
    decreases |s| - from
  {
    if from == |s| then []
    else
      match MatchAt(s, from)
      case Some(m) => [m] + Matches(s, m.end)
      case None => Matches(s, from + 1)
  }

  /** A word character is never whitespace. */
  lemma WordNotWhitespace(c: char)
    requires IsWordChar(c)
    ensures !IsWhitespace(c)
  {
  }

  /** `\s*` from `p` stops at `q` when whitespace runs up to `q` and no further. */
  lemma {:induction false} SkipWhitespaceTo(s: string, p: nat, q: nat)
    requires p <= q <= |s| && AllWhitespace(s, p, q)
    requires q == |s| || !IsWhitespace(s[q])
    ensures SkipWhitespace(s, p) == q
    decreases q - p
  {
    if p < q {
      SkipWhitespaceTo(s, p + 1, q);
    }
  }

  /** `\w*` from `p` stops at `q` when word characters run up to `q` and no further. */
  lemma {:induction false} SkipWordTo(s: string, p: nat, q: nat)
    requires p <= q <= |s| && AllWord(s, p, q)
    requires q == |s| || !IsWordChar(s[q])
    ensures SkipWord(s, p) == q
    decreases q - p
  {
    if p < q {
      SkipWordTo(s, p + 1, q);
    }
  }

  /** The search for `c` from `p` finds `q` when `q` holds the first `c` from `p` on. */
  lemma {:induction false} FindCharTo(s: string, c: char, p: nat, q: nat)
    requires p <= q < |s| && NoneIs(s, p, q, c) && s[q] == c
    ensures FindChar(s, c, p) == Some(q)
    decreases q - p
  {
    if p < q {
      FindCharTo(s, c, p + 1, q);
    }
  }

  /**
   * The `)` at `x` can end the parameters of a match: after it come optional
   * whitespace, a `{` and, somewhere later, a `}`.
   */
  predicate Closes(s: string, x: nat) {
    && x < |s| && s[x] == ')'
    && exists b | x < b < |s| :: AllWhitespace(s, x + 1, b) && s[b] == '{' && !NoneIs(s, b + 1, |s|, '}')
  }

  /**
   * The lazy `(.*?)` takes the first `)` that can end the parameters: when
   * some `)` on the line from `p` can, the tail is found, at that `)` or an
   * earlier one. So `None` means no `)` on the line can end them.
   */
  lemma {:induction false} CloseParamsLeast(s: string, p: nat, x: nat)
    requires p <= x && Closes(s, x) && NoneIs(s, p, x, '\n')
    ensures CloseParams(s, p).Some? && CloseParams(s, p).value.0 <= x
    decreases x - p
  {
    if p < x {
      assert s[p] != '\n';
      CloseParamsLeast(s, p + 1, x);
    } else {
      var b :| x < b < |s| && AllWhitespace(s, x + 1, b) && s[b] == '{' && !NoneIs(s, b + 1, |s|, '}');
      SkipWhitespaceTo(s, x + 1, b);
      assert FindChar(s, '}', b + 1).Some?;
    }
  }

  /**
   * The converse of `MatchAt`'s contract: wherever a shaped match starts, the
   * scan finds a match there, and it is the shaped match with the earliest
   * `)` (the lazy choice), so a shaped match with its `)` is found as it is.
   */
  lemma MatchAtLeast(s: string, m: FnMatch)
    requires Shaped(s, m)
    ensures MatchAt(s, m.start).Some? && MatchAt(s, m.start).value.close <= m.close
    ensures MatchAt(s, m.start).value.close == m.close ==> MatchAt(s, m.start).value == m
  {
    PlacedHead(s, m);
    PlacedLeast(s, m);
    if MatchAt(s, m.start).value.close == m.close {
      SameBounds(s, MatchAt(s, m.start).value, m);
    }
  }

  /**
   * From the start of a placed match the scans reach its name and `(`, and
   * the tail ends at its `)` or an earlier one, at its brace and end when at its `)`.
   */
  lemma PlacedLeast(s: string, m: FnMatch)
    requires Placed(s, m)
    ensures var r := MatchTail(s, m.start, m.nameStart, m.nameEnd, m.open);
            && r.Some? && r.value.close <= m.close
            && r.value.nameStart == m.nameStart && r.value.nameEnd == m.nameEnd && r.value.open == m.open
            && (r.value.close == m.close ==> r.value.brace == m.brace && r.value.end == m.end)
  {
    var t := PlacedTail(s, m);
    MatchTailFound(s, m.start, m.nameStart, m.nameEnd, m.open, t);
  }

  /** At the start of a placed match the scan reads `fn`, its name and its `(`. */
  lemma PlacedHead(s: string, m: FnMatch)
    requires Placed(s, m)
    ensures MatchAt(s, m.start) == MatchTail(s, m.start, m.nameStart, m.nameEnd, m.open)
  {
    HeadScans(s, m.start, m.nameStart, m.nameEnd, m.open);
  }

  /** The tail scan after the `(` of a placed match stops at its `)` or an earlier one. */
  lemma PlacedTail(s: string, m: FnMatch) returns (t: (nat, nat, nat))
    requires Placed(s, m)
    ensures CloseParams(s, m.open + 1) == Some(t) && t.0 <= m.close
    ensures t.0 == m.close ==> t.1 == m.brace && t.2 + 1 == m.end
  {
    TailScans(s, m.open, m.close, m.brace, m.end);
    t := CloseParams(s, m.open + 1).value;
  }

  /** `fn`, whitespace from `i + 2` to `a`, a word from `a` to `c` and whitespace from `c` to the `(` at `q` are read as such. */
  lemma HeadScans(s: string, i: nat, a: nat, c: nat, q: nat)
    requires i + 2 < a < c <= q < |s| && s[i] == 'f' && s[i + 1] == 'n' && s[q] == '('
    requires AllWhitespace(s, i + 2, a) && AllWord(s, a, c) && AllWhitespace(s, c, q)
    ensures MatchAt(s, i) == MatchTail(s, i, a, c, q)
  {
    WordNotWhitespace(s[a]);
    SkipWhitespaceTo(s, i + 2, a);
    if c < q {
      assert IsWhitespace(s[c]);
      if IsWordChar(s[c]) {
        WordNotWhitespace(s[c]);
      }
    }
    SkipWordTo(s, a, c);
    SkipWhitespaceTo(s, c, q);
    MatchAtHead(s, i, a, c, q);
  }

  /** `PlacedTail` on the positions alone. */
  lemma TailScans(s: string, open: nat, close: nat, brace: nat, end: nat)
    requires open < close < brace && brace + 1 < end <= |s|
    requires NoneIs(s, open + 1, close, '\n') && s[close] == ')'
    requires AllWhitespace(s, close + 1, brace) && s[brace] == '{'
    requires NoneIs(s, brace + 1, end - 1, '}') && s[end - 1] == '}'
    ensures CloseParams(s, open + 1).Some? && CloseParams(s, open + 1).value.0 <= close
    ensures CloseParams(s, open + 1).value.0 == close ==> CloseParams(s, open + 1).value == (close, brace, end - 1)
  {
    SkipWhitespaceTo(s, close + 1, brace);
    FindCharTo(s, '}', brace + 1, end - 1);
    assert !NoneIs(s, brace + 1, |s|, '}') by {
      assert s[end - 1] == '}';
    }
    TailLeast(s, open, close, brace, end);
  }

  /** Two shaped matches with the same boundaries are the same match. */
  lemma SameBounds(s: string, m1: FnMatch, m2: FnMatch)
    requires Shaped(s, m1) && Shaped(s, m2)
    requires m1.start == m2.start && m1.nameStart == m2.nameStart && m1.nameEnd == m2.nameEnd
    requires m1.open == m2.open && m1.close == m2.close && m1.brace == m2.brace && m1.end == m2.end
    ensures m1 == m2
  {
  }

  /**
   * The tail scan from just after `(` stops at the first `)` that can end the
   * parameters, so no later than `close`; when it stops at `close` it takes
   * the brace and end that the scans from `close` reach.
   */
  lemma TailLeast(s: string, open: nat, close: nat, brace: nat, end: nat)
    requires open < close && Closes(s, close) && NoneIs(s, open + 1, close, '\n')
    requires SkipWhitespace(s, close + 1) == brace && brace + 1 < end <= |s|
    requires FindChar(s, '}', brace + 1) == Some(end - 1)
    ensures CloseParams(s, open + 1).Some? && CloseParams(s, open + 1).value.0 <= close
    ensures CloseParams(s, open + 1).value.0 == close ==> CloseParams(s, open + 1).value == (close, brace, end - 1)
  {
    CloseParamsLeast(s, open + 1, close);
    TailFrom(s, open, close, brace, end, CloseParams(s, open + 1).value);
  }

  /** A tail that stops at `close` takes the brace and end that the scans from `close` reach. */
  lemma TailFrom(s: string, open: nat, close: nat, brace: nat, end: nat, t: (nat, nat, nat))
    requires open < close < |s|
    requires SkipWhitespace(s, close + 1) == brace && brace + 1 < end <= |s|
    requires FindChar(s, '}', brace + 1) == Some(end - 1)
    requires CloseParams(s, open + 1) == Some(t)
    ensures t.0 == close ==> t == (close, brace, end - 1)
  {
    if t.0 == close {
      TailCompletes(s, open, close, brace, end, t);
    }
  }

  /** A tail found at a `)` from which the scans reach `brace` and `end` ends at that brace and end. */
  lemma TailCompletes(s: string, open: nat, close: nat, brace: nat, end: nat, t: (nat, nat, nat))
    requires open < close < |s| && CloseParams(s, open + 1) == Some(t) && t.0 == close
    requires SkipWhitespace(s, close + 1) == brace && brace + 1 <= |s|
    requires FindChar(s, '}', brace + 1) == Some(end - 1) && brace + 1 < end
    ensures t.1 == brace && t.2 + 1 == end
  {
    SkipWhitespaceTo(s, t.0 + 1, t.1);
    FindCharTo(s, '}', t.1 + 1, t.2);
  }

  /** No match of the pattern starts in `[lo, hi)`. */
  predicate NoMatchIn(s: string, lo: nat, hi: nat)
    requires hi <= |s|
  {
    forall j | lo <= j < hi :: MatchAt(s, j).None?
  }

  /** Where the search for match `k` of `ms` starts: `from` for the first, the end of the one before after that. */
  function GapStart(ms: seq<FnMatch>, from: nat, k: nat): nat
    requires k <= |ms|
  {
    if k == 0 then from else ms[k - 1].end
  }

  /**
   * `ms` is everything the scan finds from `from`: each is the match found
   * at its start, no match starts between the end of one and the start of
   * the next, and none starts after the last.
   */
  predicate Exhaustive(s: string, ms: seq<FnMatch>, from: nat) {
    && (forall k | 0 <= k < |ms| :: ms[k].start <= |s| && MatchAt(s, ms[k].start) == Some(ms[k]))
    && (forall k | 0 <= k <= |ms| :: GapStart(ms, from, k) <= GapEnd(s, ms, k) <= |s|)
    && (forall k | 0 <= k <= |ms| :: NoMatchIn(s, GapStart(ms, from, k), GapEnd(s, ms, k)))
  }

  /** Where the stretch before match `k` of `ms` ends: at its start, or at the end of the text after the last. */
  function GapEnd(s: string, ms: seq<FnMatch>, k: nat): nat
    requires k <= |ms|
  {
    if k < |ms| then ms[k].start else |s|
  }

  /** Match `k` from `from` is the match the scan finds at its start. */
  lemma {:induction false} MatchesFoundAt(s: string, from: nat, k: nat)
    requires from <= |s| && k < |Matches(s, from)|
    ensures Matches(s, from)[k].start <= |s| && MatchAt(s, Matches(s, from)[k].start) == Some(Matches(s, from)[k])
    decreases |s| - from
  {
    match MatchAt(s, from)
    case Some(m) =>
      MatchesFrom(s, from, m);
      if k > 0 {
        MatchesFoundAt(s, m.end, k - 1);
        assert Matches(s, from)[k] == Matches(s, m.end)[k - 1];
      }
    case None =>
      MatchesSkip(s, from);
      MatchesFoundAt(s, from + 1, k);
  }

  /** In successive matches, the stretch before match `k` lies between `from` and the end of the text. */
  lemma {:induction false} SuccessiveGaps(s: string, ms: seq<FnMatch>, from: nat, k: nat)
    requires from <= |s| && Successive(s, ms, from) && k <= |ms|
    ensures from <= GapStart(ms, from, k) <= GapEnd(s, ms, k) <= |s|
    decreases |ms|
  {
    if ms != [] {
      var m := ms[0];
      assert Shaped(s, m) && from <= m.start;
      if k > 0 {
        SuccessiveGaps(s, ms[1..], m.end, k - 1);
        assert GapStart(ms, from, k) == GapStart(ms[1..], m.end, k - 1);
        assert GapEnd(s, ms, k) == GapEnd(s, ms[1..], k - 1);
      }
    }
  }

  /** The search resumed where match `k - 1` ends yields the matches from `k` on. */
  lemma {:induction false} MatchesSuffix(s: string, from: nat, k: nat)
    requires from <= |s| && k <= |Matches(s, from)|
    ensures GapStart(Matches(s, from), from, k) <= |s|
    ensures Matches(s, GapStart(Matches(s, from), from, k)) == Matches(s, from)[k..]
    decreases k
  {
    var ms := Matches(s, from);
    if k == 0 {
      assert ms[0..] == ms;
    } else {
      MatchesSuffix(s, from, k - 1);
      var g := GapStart(ms, from, k - 1);
      MatchesRest(s, g);
      SuffixNext(s, ms, Matches(s, g), from, k);
    }
  }

  /** The search resumed where its first match ends yields the rest of its matches. */
  lemma {:induction false} MatchesRest(s: string, x: nat)
    requires x <= |s| && Matches(s, x) != []
    ensures Matches(s, x)[0].end <= |s| && Matches(s, Matches(s, x)[0].end) == Matches(s, x)[1..]
    decreases |s| - x
  {
    var next, head := MatchesStep(s, x);
    var rest := Matches(s, next);
    if head == [] {
      assert Matches(s, x) == rest;
      MatchesRest(s, next);
    } else {
      assert Matches(s, x) == [head[0]] + rest;
      assert ([head[0]] + rest)[1..] == rest;
    }
  }

  /** One step of `captures_iter` from `from`: the match found there, if any, and where the search goes on. */
  lemma MatchesStep(s: string, from: nat) returns (next: nat, head: seq<FnMatch>)
    requires from < |s|
    ensures from < next <= |s| && |head| <= 1 && Matches(s, from) == head + Matches(s, next)
    ensures head != [] ==> next == head[0].end
  {
    if MatchAt(s, from).Some? {
      var m := MatchAt(s, from).value;
      MatchesFrom(s, from, m);
      next, head := m.end, [m];
    } else {
      MatchesSkip(s, from);
      next, head := from + 1, [];
    }
  }

  /**
   * When the search before match `k - 1` of `ms` yields `rest`, the rest of
   * `ms` from there on, and the search after the head of `rest` yields its
   * tail, the search before match `k` yields `ms` from `k` on.
   */
  lemma SuffixNext(s: string, ms: seq<FnMatch>, rest: seq<FnMatch>, from: nat, k: nat)
    requires 0 < k <= |ms| && rest == ms[k - 1..]
    requires rest[0].end <= |s| && Matches(s, rest[0].end) == rest[1..]
    ensures GapStart(ms, from, k) <= |s| && Matches(s, GapStart(ms, from, k)) == ms[k..]
  {
    assert rest[0] == ms[k - 1] && rest[1..] == ms[k..];
  }

  /** `captures_iter` misses nothing: what it yields from `from` is everything the scan finds. */
  lemma MatchesExact(s: string, from: nat)
    requires from <= |s|
    ensures Exhaustive(s, Matches(s, from), from)
  {
    var ms := Matches(s, from);
    forall k | 0 <= k < |ms|
      ensures ms[k].start <= |s| && MatchAt(s, ms[k].start) == Some(ms[k])
    {
      MatchesFoundAt(s, from, k);
    }
    forall k | 0 <= k <= |ms|
      ensures GapStart(ms, from, k) <= GapEnd(s, ms, k) <= |s|
    {
      SuccessiveGaps(s, ms, from, k);
    }
    forall k | 0 <= k <= |ms|
      ensures NoMatchIn(s, GapStart(ms, from, k), GapEnd(s, ms, k))
    {
      SuccessiveGaps(s, ms, from, k);
      MatchesSuffix(s, from, k);
      var g := GapStart(ms, from, k);
      assert GapEnd(s, ms, k) == if ms[k..] == [] then |s| else ms[k..][0].start;
      assert NoMatchIn(s, g, if Matches(s, g) == [] then |s| else Matches(s, g)[0].start);
    }
  }

  /** The names of the matches whose body calls `target`, in order: the `function_calls` vector. */
  function CallerNames(ms: seq<FnMatch>, target: string): (names: seq<string>)
    ensures |names| <= |ms|
    decreases |ms|
  {
    if ms == [] then []
    else
      var m := ms[|ms| - 1];
      CallerNames(ms[..|ms| - 1], target) + (if CallsTarget(m.body, target) then [m.name] else [])
  }

  /** A name is among the callers exactly when some match of that name has a body that calls the target. */
  lemma {:induction false} CallerNamesMembers(ms: seq<FnMatch>, target: string, x: string)
    ensures x in CallerNames(ms, target) <==>
              exists k :: 0 <= k < |ms| && ms[k].name == x && CallsTarget(ms[k].body, target)
    decreases |ms|
  {
    if ms != [] {
      var init := ms[..|ms| - 1];
      CallerNamesMembers(init, target, x);
      assert forall k :: 0 <= k < |init| ==> init[k] == ms[k];
    }
  }

  /** A match stays as it is when it calls the target or is the target. */
  predicate Kept(m: FnMatch, callers: seq<string>, target: string) {
    m.name in callers || m.name == target
  }

  /** What a collapsed function becomes. */
  function Placeholder(name: string): string {
    "fn " + name + "(...) { ... }"
  }

  /** The second loop of `modify_function_bodies`: one `str::replace` per collapsed match, in order. */
  function ReplaceEach(content: string, ms: seq<FnMatch>, callers: seq<string>, target: string): string
    decreases |ms|
  {
    if ms == [] then content
    else
      var next :=
        if Kept(ms[0], callers, target) then content
        else ReplaceAll(content, ms[0].whole, Placeholder(ms[0].name));
      ReplaceEach(next, ms[1..], callers, target)
  }

  /** What `modify_function_bodies` returns for `content` (as written). */
  function ModifiedContent(content: string, target: string): string {
    var ms := Matches(content, 0);
    ReplaceEach(content, ms, CallerNames(ms, target), target)
  }

  /** `modify_function_bodies` as written, on the text the source reads from the file. */
  method ModifyFunctionBodies(content: string, target: string) returns (modified: string)
    ensures modified == ModifiedContent(content, target)
  {
    var ms := Matches(content, 0);
    var callers: seq<string> := [];
    var i := 0;
    while i < |ms|
      invariant 0 <= i <= |ms|
      invariant callers == CallerNames(ms[..i], target)
    {
      CallerNamesStep(ms, i, target);
      if CallsTarget(ms[i].body, target) {
        callers := callers + [ms[i].name];
      }
      i := i + 1;
    }
    assert ms[..|ms|] == ms;
    modified := content;
    i := 0;
    while i < |ms|
      invariant 0 <= i <= |ms|
      invariant ReplaceEach(modified, ms[i..], callers, target) == ReplaceEach(content, ms, callers, target)
    {
      ReplaceEachStep(modified, ms, i, callers, target);
      if ms[i].name !in callers && ms[i].name != target {
        modified := ReplaceAll(modified, ms[i].whole, Placeholder(ms[i].name));
      }
      i := i + 1;
    }
  }

  /** One more match extends the callers by its name exactly when its body calls the target. */
  lemma CallerNamesStep(ms: seq<FnMatch>, i: nat, target: string)
    requires i < |ms|
    ensures CallerNames(ms[..i + 1], target)
            == CallerNames(ms[..i], target) + (if CallsTarget(ms[i].body, target) then [ms[i].name] else [])
  {
    assert ms[..i + 1][..i] == ms[..i];
  }

  /** One replacement step: match `i` is replaced unless it is kept, then the rest follow. */
  lemma ReplaceEachStep(text: string, ms: seq<FnMatch>, i: nat, callers: seq<string>, target: string)
    requires i < |ms|
    ensures ReplaceEach(text, ms[i..], callers, target)
            == ReplaceEach(if Kept(ms[i], callers, target) then text else ReplaceAll(text, ms[i].whole, Placeholder(ms[i].name)),
                           ms[i + 1..], callers, target)
  {
    assert ms[i..][0] == ms[i] && ms[i..][1..] == ms[i + 1..];
  }

  lemma {:induction false} ReplaceEachAllKept(content: string, ms: seq<FnMatch>, callers: seq<string>, target: string)
    requires forall k :: 0 <= k < |ms| ==> Kept(ms[k], callers, target)
    ensures ReplaceEach(content, ms, callers, target) == content
    decreases |ms|
  {
    if ms != [] {
      ReplaceEachAllKept(content, ms[1..], callers, target);
    }
  }

  /**
   * When every match is a caller or the target (in particular when the regex
   * finds no function at all), the text comes back unchanged.
   */
  lemma ModifiedContentUnchanged(content: string, target: string)
    requires forall m | m in Matches(content, 0) ::
               Kept(m, CallerNames(Matches(content, 0), target), target)
    ensures ModifiedContent(content, target) == content
  {
    var ms := Matches(content, 0);
    ReplaceEachAllKept(content, ms, CallerNames(ms, target), target);
  }

  /** Nothing is collapsed when every function found is the target or calls it. */
  lemma ModifiedContentAllCalling(content: string, target: string)
    requires forall m | m in Matches(content, 0) :: m.name == target || CallsTarget(m.body, target)
    ensures ModifiedContent(content, target) == content
  {
    var ms := Matches(content, 0);
    forall m | m in ms
      ensures Kept(m, CallerNames(ms, target), target)
    {
      if m.name != target {
        var k :| 0 <= k < |ms| && ms[k] == m;
        CallerNamesMembers(ms, target, m.name);
      }
    }
    ModifiedContentUnchanged(content, target);
  }

  /** What a match becomes in the collapsed text: itself when kept, its placeholder otherwise. */
  function Shown(m: FnMatch, callers: seq<string>, target: string): string {
    if Kept(m, callers, target) then m.whole else Placeholder(m.name)
  }

  /** The matches lie one after another in `s` from `pos`, each capturing the text it spans. */
  predicate Chained(s: string, ms: seq<FnMatch>, pos: nat)
    decreases |ms|
  {
    ms == [] ||
    (&& pos <= ms[0].start <= ms[0].end <= |s|
     && ms[0].whole == s[ms[0].start..ms[0].end]
     && Chained(s, ms[1..], ms[0].end))
  }

  /** What the scan returns lies in the text one match after another. */
  lemma {:induction false} SuccessiveChained(s: string, ms: seq<FnMatch>, pos: nat)
    requires Successive(s, ms, pos)
    ensures Chained(s, ms, pos)
    decreases |ms|
  {
    if ms != [] {
      SuccessiveChained(s, ms[1..], ms[0].end);
    }
  }

  /**
   * Each match in place, in order: the text between matches as it is, and
   * each match as it is shown.
   */
  function RenderFrom(s: string, ms: seq<FnMatch>, pos: nat, callers: seq<string>, target: string): string
    requires pos <= |s| && Chained(s, ms, pos)
    decreases |ms|
  {
    if ms == [] then s[pos..]
    else
      var m := ms[0];
      s[pos..m.start] + Shown(m, callers, target) + RenderFrom(s, ms[1..], m.end, callers, target)
  }

  lemma ContainsAfter(a: string, b: string, t: string)
    requires Contains(b, t)
    ensures Contains(a + b, t)
  {
    var i :| 0 <= i <= |b| - |t| && OccursAt(b, t, i);
    assert (a + b)[|a| + i..|a| + i + |t|] == b[i..i + |t|];
    assert OccursAt(a + b, t, |a| + i);
  }

  lemma {:induction false} RenderFromShows(s: string, ms: seq<FnMatch>, pos: nat, callers: seq<string>, target: string)
    requires pos <= |s| && Chained(s, ms, pos)
    ensures forall k | 0 <= k < |ms| :: Contains(RenderFrom(s, ms, pos, callers, target), Shown(ms[k], callers, target))
    decreases |ms|
  {
    if ms != [] {
      var m := ms[0];
      var front := s[pos..m.start] + Shown(m, callers, target);
      var rest := RenderFrom(s, ms[1..], m.end, callers, target);
      assert RenderFrom(s, ms, pos, callers, target) == front + rest;
      RenderFromShows(s, ms[1..], m.end, callers, target);
      ContainsMiddle(s[pos..m.start], Shown(m, callers, target), rest);
      forall k | 1 <= k < |ms|
        ensures Contains(front + rest, Shown(ms[k], callers, target))
      {
        assert ms[1..][k - 1] == ms[k];
        ContainsAfter(front, rest, Shown(ms[k], callers, target));
      }
    }
  }

  lemma {:induction false} RenderFromAllKept(s: string, ms: seq<FnMatch>, pos: nat, callers: seq<string>, target: string)
    requires pos <= |s| && Chained(s, ms, pos)
    requires forall k :: 0 <= k < |ms| ==> Kept(ms[k], callers, target)
    ensures RenderFrom(s, ms, pos, callers, target) == s[pos..]
    decreases |ms|
  {
    if ms != [] {
      var m := ms[0];
      RenderFromAllKept(s, ms[1..], m.end, callers, target);
      assert s[pos..m.start] + s[m.start..m.end] + s[m.end..] == s[pos..];
    }
  }

  /** How much longer the first `k` matches of `ms` become once shown: the sum of `|Shown(m)| - |m.whole|`. */
  function Growth(ms: seq<FnMatch>, k: nat, callers: seq<string>, target: string): int
    requires k <= |ms|
  {
    if k == 0 then 0
    else Growth(ms, k - 1, callers, target) + |Shown(ms[k - 1], callers, target)| - |ms[k - 1].whole|
  }

  /**
   * In `r`, the rendering of `s` from `pos`, match `k` of `ms` is shown at
   * its own offset moved by the growth of the matches before it, and the
   * text between it and the match before (or `pos`) sits verbatim just
   * before it.
   */
  predicate ShownAt(s: string, ms: seq<FnMatch>, pos: nat, callers: seq<string>, target: string, r: string, k: nat)
    requires k < |ms|
  {
    Verbatim(s, ms[k], GapStart(ms, pos, k), Shown(ms[k], callers, target), r,
             ms[k].start - pos + Growth(ms, k, callers, target))
  }

  /** `r` holds `shown` at offset `o`, right after `s[g..m.start]`. */
  predicate Verbatim(s: string, m: FnMatch, g: nat, shown: string, r: string, o: int) {
    && g <= m.start <= |s| && m.start - g <= o && o + |shown| <= |r|
    && r[o - (m.start - g)..o] == s[g..m.start]
    && r[o..o + |shown|] == shown
  }

  /**
   * `r`, the rendering of `s` from `pos`, is as long as `s[pos..]` plus the
   * growth of `ms`, and ends with the text after the last match, verbatim.
   */
  predicate TailAt(s: string, ms: seq<FnMatch>, pos: nat, callers: seq<string>, target: string, r: string) {
    var e := GapStart(ms, pos, |ms|);
    && e <= |s| && pos <= |s| && |r| == |s| - pos + Growth(ms, |ms|, callers, target)
    && |s| - e <= |r| && r[|r| - (|s| - e)..] == s[e..]
  }

  /** The text after the last match comes out at the end of the rendering, verbatim. */
  lemma {:induction false} RenderFromTail(s: string, ms: seq<FnMatch>, pos: nat, callers: seq<string>, target: string)
    requires pos <= |s| && Chained(s, ms, pos)
    ensures TailAt(s, ms, pos, callers, target, RenderFrom(s, ms, pos, callers, target))
    decreases |ms|
  {
    if ms == [] {
      assert RenderFrom(s, ms, pos, callers, target) == s[pos..];
    } else {
      RenderFromCons(s, ms, pos, callers, target);
      RenderFromTail(s, ms[1..], ms[0].end, callers, target);
      TailAtStep(s, ms, pos, callers, target, RenderFrom(s, ms[1..], ms[0].end, callers, target));
    }
  }

  /** The tail and the length carry over when the first match and the text before it are put in front. */
  lemma TailAtStep(s: string, ms: seq<FnMatch>, pos: nat, callers: seq<string>, target: string, rest: string)
    requires 0 < |ms| && pos <= ms[0].start <= ms[0].end <= |s| && |ms[0].whole| == ms[0].end - ms[0].start
    requires TailAt(s, ms[1..], ms[0].end, callers, target, rest)
    ensures TailAt(s, ms, pos, callers, target, (s[pos..ms[0].start] + Shown(ms[0], callers, target)) + rest)
  {
    var m := ms[0];
    var front := s[pos..m.start] + Shown(m, callers, target);
    var e := GapStart(ms, pos, |ms|);
    if |ms| > 1 {
      assert ms[1..][|ms| - 2] == ms[|ms| - 1];
    }
    assert e == GapStart(ms[1..], m.end, |ms| - 1);
    GrowthCons(ms, |ms|, callers, target);
    assert |front + rest| == |s| - pos + Growth(ms, |ms|, callers, target);
    SuffixCarry(s, e, front, rest);
  }

  /** A suffix of `rest` that is a suffix of `s` stays one after `front` is put before `rest`. */
  lemma SuffixCarry(s: string, e: nat, front: string, rest: string)
    requires e <= |s| && |s| - e <= |rest| && rest[|rest| - (|s| - e)..] == s[e..]
    ensures (front + rest)[|front + rest| - (|s| - e)..] == s[e..]
  {
    SuffixOfAppend(front, rest, |s| - e);
  }

  /** Each match comes out at its offset, moved by the growth of the matches before it, after its gap. */
  lemma {:induction false} RenderFromPlaces(s: string, ms: seq<FnMatch>, pos: nat, callers: seq<string>, target: string, k: nat)
    requires pos <= |s| && Chained(s, ms, pos) && k < |ms|
    ensures ShownAt(s, ms, pos, callers, target, RenderFrom(s, ms, pos, callers, target), k)
    decreases |ms|, 1
  {
    if k == 0 {
      RenderFromFirst(s, ms, pos, callers, target);
    } else {
      RenderFromNext(s, ms, pos, callers, target, k);
    }
  }

  /** The first match comes out after the text before it. */
  lemma RenderFromFirst(s: string, ms: seq<FnMatch>, pos: nat, callers: seq<string>, target: string)
    requires pos <= |s| && Chained(s, ms, pos) && ms != []
    ensures ShownAt(s, ms, pos, callers, target, RenderFrom(s, ms, pos, callers, target), 0)
  {
    RenderFromCons(s, ms, pos, callers, target);
    ShownAtFirst(s, ms, pos, callers, target, RenderFrom(s, ms[1..], ms[0].end, callers, target));
  }

  /** Match `k` comes out where match `k - 1` comes out in the rendering of the matches after the first. */
  lemma {:induction false} RenderFromNext(s: string, ms: seq<FnMatch>, pos: nat, callers: seq<string>, target: string, k: nat)
    requires pos <= |s| && Chained(s, ms, pos) && 0 < k < |ms|
    ensures ShownAt(s, ms, pos, callers, target, RenderFrom(s, ms, pos, callers, target), k)
    decreases |ms|, 0
  {
    RenderFromCons(s, ms, pos, callers, target);
    RenderFromPlaces(s, ms[1..], ms[0].end, callers, target, k - 1);
    ShownAtStep(s, ms, pos, callers, target, RenderFrom(s, ms[1..], ms[0].end, callers, target), k);
  }

  /** The rendering is the text before the first match, the match as shown, and the rendering of the rest. */
  lemma RenderFromCons(s: string, ms: seq<FnMatch>, pos: nat, callers: seq<string>, target: string)
    requires pos <= |s| && Chained(s, ms, pos) && ms != []
    ensures pos <= ms[0].start <= ms[0].end <= |s| && |ms[0].whole| == ms[0].end - ms[0].start
    ensures Chained(s, ms[1..], ms[0].end)
    ensures RenderFrom(s, ms, pos, callers, target)
            == (s[pos..ms[0].start] + Shown(ms[0], callers, target)) + RenderFrom(s, ms[1..], ms[0].end, callers, target)
  {
  }

  /** The first match comes out right after the text before it. */
  lemma ShownAtFirst(s: string, ms: seq<FnMatch>, pos: nat, callers: seq<string>, target: string, rest: string)
    requires 0 < |ms| && pos <= ms[0].start <= |s|
    ensures ShownAt(s, ms, pos, callers, target, (s[pos..ms[0].start] + Shown(ms[0], callers, target)) + rest, 0)
  {
    PrefixSlices(s[pos..ms[0].start], Shown(ms[0], callers, target), rest);
  }

  /** Match `k` comes out where match `k - 1` of the rest comes out in the rendering after the first match. */
  lemma ShownAtStep(s: string, ms: seq<FnMatch>, pos: nat, callers: seq<string>, target: string, rest: string, k: nat)
    requires 0 < k < |ms| && pos <= ms[0].start <= ms[0].end <= |s| && |ms[0].whole| == ms[0].end - ms[0].start
    requires ShownAt(s, ms[1..], ms[0].end, callers, target, rest, k - 1)
    ensures ShownAt(s, ms, pos, callers, target, (s[pos..ms[0].start] + Shown(ms[0], callers, target)) + rest, k)
  {
    var m := ms[0];
    var front := s[pos..m.start] + Shown(m, callers, target);
    var o' := ms[k].start - m.end + Growth(ms[1..], k - 1, callers, target);
    assert ms[1..][k - 1] == ms[k];
    assert GapStart(ms, pos, k) == GapStart(ms[1..], m.end, k - 1);
    GrowthCons(ms, k, callers, target);
    VerbatimShift(s, ms[k], GapStart(ms, pos, k), Shown(ms[k], callers, target), rest, o', front,
                  ms[k].start - pos + Growth(ms, k, callers, target));
  }

  /** Putting `front` before `r` moves what `r` holds by `|front|`, to `o2`. */
  lemma VerbatimShift(s: string, m: FnMatch, g: nat, shown: string, r: string, o: int, front: string, o2: int)
    requires Verbatim(s, m, g, shown, r, o) && o2 == |front| + o
    ensures Verbatim(s, m, g, shown, front + r, o2)
  {
    SliceShift(front, r, o - (m.start - g), o);
    SliceShift(front, r, o, o + |shown|);
  }

  /** The growth of the first `k` matches is that of the first one plus that of the next `k - 1`. */
  lemma {:induction false} GrowthCons(ms: seq<FnMatch>, k: nat, callers: seq<string>, target: string)
    requires 0 < k <= |ms|
    ensures Growth(ms, k, callers, target)
            == |Shown(ms[0], callers, target)| - |ms[0].whole| + Growth(ms[1..], k - 1, callers, target)
    decreases k
  {
    if k > 1 {
      GrowthCons(ms, k - 1, callers, target);
      assert ms[1..][k - 2] == ms[k - 1];
    }
  }

  lemma SliceShift(a: string, b: string, x: nat, y: nat)
    requires x <= y <= |b|
    ensures (a + b)[|a| + x..|a| + y] == b[x..y]
  {
  }

  lemma SuffixOfAppend(a: string, b: string, n: nat)
    requires n <= |b|
    ensures (a + b)[|a + b| - n..] == b[|b| - n..]
  {
  }

  lemma PrefixSlices(a: string, b: string, c: string)
    ensures ((a + b) + c)[..|a|] == a && ((a + b) + c)[|a|..|a| + |b|] == b
  {
  }

  /**
   * Body replacement done in place: every match that neither calls the
   * target nor is the target shows up as its placeholder, every other match
   * shows up verbatim, and a file where nothing is collapsed (or where the
   * regex finds no function) comes back unchanged.
   */
  function CollapseBodies(content: string, target: string): (r: string)
    ensures forall m | m in Matches(content, 0) ::
              Kept(m, CallerNames(Matches(content, 0), target), target) ==> Contains(r, m.whole)
    ensures forall m | m in Matches(content, 0) ::
              !Kept(m, CallerNames(Matches(content, 0), target), target) ==> Contains(r, Placeholder(m.name))
    ensures (forall m | m in Matches(content, 0) ::
              Kept(m, CallerNames(Matches(content, 0), target), target)) ==> r == content
  {
    var ms := Matches(content, 0);
    var callers := CallerNames(ms, target);
    SuccessiveChained(content, ms, 0);
    RenderFromShows(content, ms, 0, callers, target);
    if forall m | m in ms :: Kept(m, callers, target) then
      RenderFromAllKept(content, ms, 0, callers, target);
      RenderFrom(content, ms, 0, callers, target)
    else
      RenderFrom(content, ms, 0, callers, target)
  }

  /**
   * Where everything lands: the text between matches comes through
   * verbatim, match `k` is shown at its start shifted by what the matches
   * before it grew or shrank by, and the text after the last match ends
   * the result.
   */
  lemma CollapseBodiesLayout(content: string, target: string)
    ensures var ms := Matches(content, 0);
            var callers := CallerNames(ms, target);
            && TailAt(content, ms, 0, callers, target, CollapseBodies(content, target))
            && forall k | 0 <= k < |ms| :: ShownAt(content, ms, 0, callers, target, CollapseBodies(content, target), k)
  {
    var ms := Matches(content, 0);
    var callers := CallerNames(ms, target);
    CollapseIsRender(content, target);
    RenderFromTail(content, ms, 0, callers, target);
    forall k | 0 <= k < |ms|
      ensures ShownAt(content, ms, 0, callers, target, RenderFrom(content, ms, 0, callers, target), k)
    {
      RenderFromPlaces(content, ms, 0, callers, target, k);
    }
  }

  lemma ReplaceAllSkips(s: string, from: string, to: string)
    requires from != [] && |s| >= |from| && s[..|from|] != from
    ensures ReplaceAll(s, from, to) == [s[0]] + ReplaceAll(s[1..], from, to)
  {
  }

  lemma ReplaceAllHits(s: string, from: string, to: string)
    requires from != [] && |s| >= |from| && s[..|from|] == from
    ensures ReplaceAll(s, from, to) == to + ReplaceAll(s[|from|..], from, to)
  {
  }

  /** A file where a kept function's text contains a copy of a collapsed one. */
  const Example: string := "fn t(fn b(){}fn b(){}"

  const ExampleTarget: FnMatch := FnMatch(0, 3, 4, 4, 10, 11, 13, "t", "", "fn t(fn b(){}")

  const ExampleOther: FnMatch := FnMatch(13, 16, 17, 17, 18, 19, 21, "b", "", "fn b(){}")

  /** The characters and slices of the example that the lemmas below read. */
  lemma ExampleText()
    ensures |Example| == 21
    ensures Example[0] == 'f' && Example[1] == 'n' && Example[4] == '('
    ensures Example[13] == 'f' && Example[14] == 'n' && Example[17] == '('
    ensures Example[3..4] == "t" && Example[12..12] == "" && Example[0..13] == "fn t(fn b(){}"
    ensures Example[16..17] == "b" && Example[20..20] == "" && Example[13..21] == "fn b(){}"
    ensures Example[5..13] == "fn b(){}"
  {
  }

  lemma ExampleFirstName()
    ensures SkipWhitespace(Example, 2) == 3 && SkipWord(Example, 3) == 4 && SkipWhitespace(Example, 4) == 4
  {
    assert |Example| == 21;
    assert SkipWhitespace(Example, 3) == 3;
    assert SkipWord(Example, 4) == 4;
  }

  lemma ExampleFirstParams()
    ensures CloseParams(Example, 5) == Some((10, 11, 12))
  {
    var s := Example;
    assert |s| == 21;
    assert SkipWhitespace(s, 11) == 11;
    assert FindChar(s, '}', 12) == Some(12);
    assert CloseParams(s, 10) == Some((10, 11, 12));
    assert CloseParams(s, 9) == Some((10, 11, 12));
    assert CloseParams(s, 8) == Some((10, 11, 12));
    assert CloseParams(s, 7) == Some((10, 11, 12));
    assert CloseParams(s, 6) == Some((10, 11, 12));
  }

  /** The match at `i`, assembled from the scans that `MatchAt` makes. */
  lemma MatchAtPieces(s: string, i: nat, a: nat, c: nat, q: nat, t: (nat, nat, nat))
    requires i + 2 <= |s| && s[i] == 'f' && s[i + 1] == 'n'
    requires SkipWhitespace(s, i + 2) == a && a != i + 2
    requires SkipWord(s, a) == c && c != a
    requires SkipWhitespace(s, c) == q && q < |s| && s[q] == '('
    requires CloseParams(s, q + 1) == Some(t)
    ensures MatchAt(s, i) == Some(FnMatch(i, a, c, q, t.0, t.1, t.2 + 1, s[a..c], s[t.1 + 1..t.2], s[i..t.2 + 1]))
  {
    MatchAtHead(s, i, a, c, q);
    MatchTailFound(s, i, a, c, q, t);
  }

  lemma MatchAtHead(s: string, i: nat, a: nat, c: nat, q: nat)
    requires i + 2 <= |s| && s[i] == 'f' && s[i + 1] == 'n'
    requires SkipWhitespace(s, i + 2) == a && a != i + 2
    requires SkipWord(s, a) == c && c != a
    requires SkipWhitespace(s, c) == q && q < |s| && s[q] == '('
    ensures MatchAt(s, i) == MatchTail(s, i, a, c, q)
  {
  }

  lemma MatchTailFound(s: string, i: nat, a: nat, c: nat, q: nat, t: (nat, nat, nat))
    requires i <= a <= c <= q < |s|
    requires CloseParams(s, q + 1) == Some(t)
    ensures MatchTail(s, i, a, c, q) == Some(FnMatch(i, a, c, q, t.0, t.1, t.2 + 1, s[a..c], s[t.1 + 1..t.2], s[i..t.2 + 1]))
  {
  }

  lemma ExampleFirstMatch()
    ensures MatchAt(Example, 0) == Some(ExampleTarget)
  {
    ExampleText();
    ExampleFirstName();
    ExampleFirstParams();
    MatchAtPieces(Example, 0, 3, 4, 4, (10, 11, 12));
  }

  lemma ExampleSecondName()
    ensures SkipWhitespace(Example, 15) == 16 && SkipWord(Example, 16) == 17 && SkipWhitespace(Example, 17) == 17
  {
    assert |Example| == 21;
    assert SkipWhitespace(Example, 16) == 16;
    assert SkipWord(Example, 17) == 17;
  }

  lemma ExampleSecondParams()
    ensures CloseParams(Example, 18) == Some((18, 19, 20))
  {
    assert |Example| == 21;
    assert SkipWhitespace(Example, 19) == 19;
    assert FindChar(Example, '}', 20) == Some(20);
  }

  lemma ExampleSecondMatch()
    ensures MatchAt(Example, 13) == Some(ExampleOther)
  {
    ExampleText();
    ExampleSecondName();
    ExampleSecondParams();
    MatchAtPieces(Example, 13, 16, 17, 17, (18, 19, 20));
  }

  /** A match found at `from` opens the matches from `from`. */
  lemma MatchesFrom(s: string, from: nat, m: FnMatch)
    requires from < |s| && MatchAt(s, from) == Some(m)
    ensures m.end <= |s| && Matches(s, from) == [m] + Matches(s, m.end)
  {
  }

  /** With no match at `from`, the matches from `from` are those from the next position, all after `from`. */
  lemma MatchesSkip(s: string, from: nat)
    requires from < |s| && MatchAt(s, from).None?
    ensures Matches(s, from) == Matches(s, from + 1)
    ensures Matches(s, from) != [] ==> from < Matches(s, from)[0].start
  {
  }

  lemma ExampleMatches()
    ensures Matches(Example, 0) == [ExampleTarget, ExampleOther]
    ensures CallerNames(Matches(Example, 0), "t") == []
  {
    ExampleMatchList();
    ExampleCallers();
  }

  lemma ExampleMatchList()
    ensures Matches(Example, 0) == [ExampleTarget, ExampleOther]
  {
    ExampleText();
    ExampleFirstMatch();
    ExampleSecondMatch();
    var rest := Matches(Example, 21);
    assert rest == [];
    MatchesFrom(Example, 13, ExampleOther);
    assert Matches(Example, 13) == [ExampleOther] + rest;
    MatchesFrom(Example, 0, ExampleTarget);
    assert Matches(Example, 0) == [ExampleTarget] + Matches(Example, 13);
  }

  /** Neither function of the example calls `t`. */
  lemma ExampleCallers()
    ensures CallerNames([ExampleTarget, ExampleOther], "t") == []
  {
    assert !Contains("", "t(") && !Contains("", "t (");
    assert [ExampleTarget, ExampleOther][..1] == [ExampleTarget];
    assert CallerNames([ExampleTarget], "t") == [];
  }

  lemma {:induction false} ReplaceAllSkipsPrefix(s: string, from: string, to: string, n: nat)
    requires from != [] && n + |from| <= |s|
    requires forall j | 0 <= j < n :: !OccursAt(s, from, j)
    ensures ReplaceAll(s, from, to) == s[..n] + ReplaceAll(s[n..], from, to)
    decreases n
  {
    if n > 0 {
      assert !OccursAt(s, from, 0);
      NoOccurrenceShifted(s, from, n);
      ReplaceAllSkipsPrefix(s[1..], from, to, n - 1);
      ReplaceAllSkipOne(s, from, to, n);
    }
  }

  /** One step of the above: a text that does not start with `from` keeps its first character. */
  lemma ReplaceAllSkipOne(s: string, from: string, to: string, n: nat)
    requires from != [] && 0 < n && n + |from| <= |s| && !OccursAt(s, from, 0)
    requires ReplaceAll(s[1..], from, to) == s[1..][..n - 1] + ReplaceAll(s[1..][n - 1..], from, to)
    ensures ReplaceAll(s, from, to) == s[..n] + ReplaceAll(s[n..], from, to)
  {
    assert s[..|from|] != from by {
      assert s[0..|from|] == s[..|from|];
    }
    ReplaceAllSkips(s, from, to);
    assert s[1..][n - 1..] == s[n..];
    ConsSlice(s, n, ReplaceAll(s[n..], from, to));
  }

  lemma ConsSlice(s: string, n: nat, x: string)
    requires 0 < n <= |s|
    ensures [s[0]] + (s[1..][..n - 1] + x) == s[..n] + x
  {
    assert [s[0]] + s[1..][..n - 1] == s[..n];
  }

  /** No occurrence in `s` before `n` means none in `s[1..]` before `n - 1`. */
  lemma NoOccurrenceShifted(s: string, from: string, n: nat)
    requires 0 < n && n + |from| <= |s|
    requires forall j | 0 <= j < n :: !OccursAt(s, from, j)
    ensures forall j | 0 <= j < n - 1 :: !OccursAt(s[1..], from, j)
  {
    forall j | 0 <= j < n - 1
      ensures !OccursAt(s[1..], from, j)
    {
      assert !OccursAt(s, from, j + 1);
      assert s[1..][j..j + |from|] == s[j + 1..j + 1 + |from|];
    }
  }

  lemma ExampleNoEarlyCopy()
    ensures forall j | 0 <= j < 5 :: !OccursAt(Example, ExampleOther.whole, j)
  {
    var s := Example;
    var f := ExampleOther.whole;
    assert |s| == 21 && |f| == 8;
    forall j | 0 <= j < 5
      ensures !OccursAt(s, f, j)
    {
      if j == 0 {
        assert s[j..j + 8][3] == s[3] == 't' && f[3] == 'b';
      } else {
        assert s[j..j + 8][0] == s[j] && s[j] in {'n', ' ', 't', '('} && f[0] == 'f';
      }
    }
  }

  /** Replacement reaches the first occurrence: what precedes it is kept, it becomes `to`. */
  lemma ReplaceAllFirst(s: string, from: string, to: string, n: nat)
    requires from != [] && OccursAt(s, from, n)
    requires forall j | 0 <= j < n :: !OccursAt(s, from, j)
    ensures |ReplaceAll(s, from, to)| >= n + |to|
    ensures ReplaceAll(s, from, to)[n..n + |to|] == to
  {
    var t := s[n..];
    var x := ReplaceAll(t[|from|..], from, to);
    assert ReplaceAll(s, from, to) == s[..n] + ReplaceAll(t, from, to) by {
      ReplaceAllSkipsPrefix(s, from, to, n);
    }
    assert ReplaceAll(t, from, to) == to + x by {
      assert t[..|from|] == from;
      ReplaceAllHits(t, from, to);
    }
    assert ReplaceAll(s, from, to) == s[..n] + to + x;
  }

  /** Replacing every `fn b(){}` also reaches the copy at index 5, inside the target. */
  lemma ExampleReplaced()
    ensures var r := ReplaceAll(Example, ExampleOther.whole, Placeholder(ExampleOther.name));
            |r| >= 13 && r[10] == '.'
  {
    var f := ExampleOther.whole;
    var p := Placeholder(ExampleOther.name);
    ExampleText();
    ExampleNoEarlyCopy();
    assert |p| == 17 && p[5] == '.';
    ReplaceAllFirst(Example, f, p, 5);
    SliceAt(ReplaceAll(Example, f, p), 5, p, 5);
  }

  lemma SliceAt(r: string, n: nat, p: string, k: nat)
    requires n + |p| <= |r| && r[n..n + |p|] == p && k < |p|
    ensures r[n + k] == p[k]
  {
    assert r[n..n + |p|][k] == r[n + k];
  }

  /** With a kept match and then a collapsed one, the replacements amount to one `str::replace`. */
  lemma ReplaceEachKeptCollapsed(content: string, a: FnMatch, b: FnMatch, callers: seq<string>, target: string)
    requires Kept(a, callers, target) && !Kept(b, callers, target)
    ensures ReplaceEach(content, [a, b], callers, target) == ReplaceAll(content, b.whole, Placeholder(b.name))
  {
    var r := ReplaceAll(content, b.whole, Placeholder(b.name));
    assert [a, b][1..] == [b];
    assert ReplaceEach(content, [a, b], callers, target) == ReplaceEach(content, [b], callers, target);
    assert ReplaceEach(content, [b], callers, target) == ReplaceEach(r, [], callers, target);
  }

  lemma ExampleReplaceEach()
    ensures ModifiedContent(Example, "t") == ReplaceAll(Example, ExampleOther.whole, Placeholder(ExampleOther.name))
  {
    ExampleMatches();
    ReplaceEachKeptCollapsed(Example, ExampleTarget, ExampleOther, [], "t");
  }

  /** A text whose `k`-th character differs from that of `w` does not start with `w`. */
  lemma PrefixDiffers(r: string, w: string, k: nat)
    requires k < |w| <= |r| && r[k] != w[k]
    ensures r[..|w|] != w
  {
    assert r[..|w|][k] == r[k];
  }

  /** As written, the target's text loses its inner copy of the collapsed function. */
  lemma ExampleModified()
    ensures |ModifiedContent(Example, "t")| >= 13
    ensures ModifiedContent(Example, "t")[..13] != ExampleTarget.whole
  {
    ExampleReplaceEach();
    ExampleReplaced();
    assert |ExampleTarget.whole| == 13 && ExampleTarget.whole[10] == ')';
    PrefixDiffers(ModifiedContent(Example, "t"), ExampleTarget.whole, 10);
  }

  lemma CollapseIsRender(s: string, target: string)
    ensures && Chained(s, Matches(s, 0), 0)
            && CollapseBodies(s, target) == RenderFrom(s, Matches(s, 0), 0, CallerNames(Matches(s, 0), target), target)
  {
    SuccessiveChained(s, Matches(s, 0), 0);
  }

  /** A kept match at the very start of the text opens the rendering unchanged. */
  lemma RenderKeepsFirst(s: string, ms: seq<FnMatch>, callers: seq<string>, target: string)
    requires Chained(s, ms, 0) && ms != [] && ms[0].start == 0 && Kept(ms[0], callers, target)
    ensures |RenderFrom(s, ms, 0, callers, target)| >= |ms[0].whole|
    ensures RenderFrom(s, ms, 0, callers, target)[..|ms[0].whole|] == ms[0].whole
  {
    var rest := RenderFrom(s, ms[1..], ms[0].end, callers, target);
    assert RenderFrom(s, ms, 0, callers, target) == s[0..0] + ms[0].whole + rest;
  }

  /** A kept match at the very start of the text opens the collapsed text unchanged. */
  lemma CollapseKeepsFirst(s: string, target: string)
    requires Matches(s, 0) != [] && Matches(s, 0)[0].start == 0
    requires Kept(Matches(s, 0)[0], CallerNames(Matches(s, 0), target), target)
    ensures |CollapseBodies(s, target)| >= |Matches(s, 0)[0].whole|
    ensures CollapseBodies(s, target)[..|Matches(s, 0)[0].whole|] == Matches(s, 0)[0].whole
  {
    CollapseIsRender(s, target);
    RenderKeepsFirst(s, Matches(s, 0), CallerNames(Matches(s, 0), target), target);
  }

  /** In place, the target's text stays at the front. */
  lemma ExampleCollapsed()
    ensures |CollapseBodies(Example, "t")| >= 13
    ensures CollapseBodies(Example, "t")[..13] == ExampleTarget.whole
  {
    ExampleMatches();
    assert Kept(ExampleTarget, [], "t");
    CollapseKeepsFirst(Example, "t");
  }

  /**
   * In `fn t(fn b(){}fn b(){}` the regex finds `fn t(fn b(){}` (the target
   * `t`, kept) and then `fn b(){}` (collapsed). Replacing the text of the
   * second also rewrites its copy inside the first, so the kept target
   * function does not survive `modify_function_bodies` verbatim; the
   * in-place replacement keeps it.
   */
  lemma ReplaceRewritesKeptTarget()
    ensures var ms := Matches(Example, 0);
            && |ms| == 2
            && ms[0].name == "t" && ms[0].whole == "fn t(fn b(){}"
            && Kept(ms[0], CallerNames(ms, "t"), "t")
            && ms[1].name == "b" && ms[1].whole == "fn b(){}"
            && !Kept(ms[1], CallerNames(ms, "t"), "t")
            && |CollapseBodies(Example, "t")| >= 13
            && CollapseBodies(Example, "t")[..13] == ms[0].whole
            && |ModifiedContent(Example, "t")| >= 13
            && ModifiedContent(Example, "t")[..13] != ms[0].whole
  {
    ExampleMatches();
    ExampleKept();
    ExampleModified();
    ExampleCollapsed();
  }

  /** With no callers, the target is kept and `b` is collapsed. */
  lemma ExampleKept()
    ensures Kept(ExampleTarget, [], "t") && !Kept(ExampleOther, [], "t")
  {
    assert ExampleOther.name == "b" && "b" != "t";
  }

  /**
   * A file where a function to be collapsed holds a copy of an earlier one
   * that is also collapsed: `a`'s parameters run up to the `)` of the copy.
   */
  const Escape: string := "fn b(){}fn a(x fn b(){}"

  const EscapeFirst: FnMatch := FnMatch(0, 3, 4, 4, 5, 6, 8, "b", "", "fn b(){}")

  const EscapeSecond: FnMatch := FnMatch(8, 11, 12, 12, 20, 21, 23, "a", "", "fn a(x fn b(){}")

  /** What `fn b(){}` turns into. */
  const EscapeShown: string := "fn b(...) { ... }"

  lemma EscapeText()
    ensures |Escape| == 23
    ensures Escape[0] == 'f' && Escape[1] == 'n' && Escape[4] == '('
    ensures Escape[8] == 'f' && Escape[9] == 'n' && Escape[12] == '('
    ensures Escape[3..4] == "b" && Escape[7..7] == "" && Escape[0..8] == "fn b(){}"
    ensures Escape[11..12] == "a" && Escape[22..22] == "" && Escape[8..23] == "fn a(x fn b(){}"
  {
  }

  lemma EscapeFirstScans()
    ensures SkipWhitespace(Escape, 2) == 3 && SkipWord(Escape, 3) == 4 && SkipWhitespace(Escape, 4) == 4
    ensures CloseParams(Escape, 5) == Some((5, 6, 7))
  {
    var s := Escape;
    assert |s| == 23 && s[2] == ' ' && s[3] == 'b' && s[4] == '(' && s[5] == ')' && s[6] == '{' && s[7] == '}';
    assert SkipWhitespace(s, 3) == 3;
    assert SkipWord(s, 4) == 4;
    assert SkipWhitespace(s, 6) == 6;
    assert FindChar(s, '}', 7) == Some(7);
  }

  lemma EscapeFirstMatch()
    ensures MatchAt(Escape, 0) == Some(EscapeFirst)
  {
    EscapeText();
    EscapeFirstScans();
    MatchAtPieces(Escape, 0, 3, 4, 4, (5, 6, 7));
  }

  lemma EscapeSecondClose()
    ensures CloseParams(Escape, 20) == Some((20, 21, 22))
  {
    var s := Escape;
    assert |s| == 23 && s[20] == ')' && s[21] == '{' && s[22] == '}';
    assert SkipWhitespace(s, 21) == 21;
    assert FindChar(s, '}', 22) == Some(22);
  }

  /** The lazy parameters of `a` run over `x fn b(` to the `)` of the copy. */
  lemma EscapeSecondParams()
    ensures CloseParams(Escape, 13) == Some((20, 21, 22))
  {
    var s := Escape;
    EscapeSecondClose();
    assert |s| == 23 && s[13..20] == "x fn b(";
    CloseParamsSkip(s, 13, 20);
  }

  /** Characters that are neither `)` nor a line feed are passed over. */
  lemma {:induction false} CloseParamsSkip(s: string, p: nat, x: nat)
    requires p <= x <= |s| && forall k | p <= k < x :: s[k] != ')' && s[k] != '\n'
    ensures CloseParams(s, p) == CloseParams(s, x)
    decreases x - p
  {
    if p < x {
      CloseParamsSkip(s, p + 1, x);
    }
  }

  lemma EscapeSecondName()
    ensures SkipWhitespace(Escape, 10) == 11 && SkipWord(Escape, 11) == 12 && SkipWhitespace(Escape, 12) == 12
  {
    var s := Escape;
    assert |s| == 23 && s[10] == ' ' && s[11] == 'a' && s[12] == '(';
    assert SkipWhitespace(s, 11) == 11;
    assert SkipWord(s, 12) == 12;
  }

  lemma EscapeSecondMatch()
    ensures MatchAt(Escape, 8) == Some(EscapeSecond)
  {
    var s := Escape;
    EscapeText();
    EscapeSecondName();
    EscapeSecondParams();
    MatchAtPieces(s, 8, 11, 12, 12, (20, 21, 22));
  }

  lemma EscapeMatchList()
    ensures Matches(Escape, 0) == [EscapeFirst, EscapeSecond]
  {
    assert |Escape| == 23;
    EscapeFirstMatch();
    EscapeSecondMatch();
    assert Matches(Escape, 23) == [];
    MatchesFrom(Escape, 8, EscapeSecond);
    MatchesFrom(Escape, 0, EscapeFirst);
  }

  /** Neither function calls `z`, so neither is kept. */
  lemma EscapeCallers()
    ensures CallerNames([EscapeFirst, EscapeSecond], "z") == []
    ensures !Kept(EscapeFirst, [], "z") && !Kept(EscapeSecond, [], "z")
  {
    assert !Contains("", "z(") && !Contains("", "z (");
    assert [EscapeFirst, EscapeSecond][..1] == [EscapeFirst];
    assert CallerNames([EscapeFirst], "z") == [];
  }

  /** Inside `a`, the only copy of `b`'s text starts at 7. */
  lemma EscapeNoEarlyCopy()
    ensures forall j | 0 <= j < 7 :: !OccursAt(EscapeSecond.whole, EscapeFirst.whole, j)
  {
    var t := EscapeSecond.whole;
    var f := EscapeFirst.whole;
    assert |t| == 15 && |f| == 8 && f[0] == 'f';
    forall j | 0 <= j < 7
      ensures !OccursAt(t, f, j)
    {
      assert t[j..j + 8][0] == t[j];
      if j == 0 {
        assert t[j..j + 8][3] == t[3] == 'a';
      }
    }
  }

  /** A text that is exactly the pattern becomes the replacement. */
  lemma ReplaceAllWhole(from: string, to: string)
    requires from != []
    ensures ReplaceAll(from, from, to) == to
  {
    assert from[..|from|] == from && from[|from|..] == [];
    ReplaceAllHits(from, from, to);
  }

  /** Collapsing `b` inside `a`'s text rewrites the copy there. */
  lemma EscapeInnerReplaced()
    ensures ReplaceAll(EscapeSecond.whole, EscapeFirst.whole, EscapeShown) == "fn a(x " + EscapeShown
  {
    var t := EscapeSecond.whole;
    var f := EscapeFirst.whole;
    EscapeNoEarlyCopy();
    ReplaceAllSkipsPrefix(t, f, EscapeShown, 7);
    assert t[7..] == f && t[..7] == "fn a(x ";
    ReplaceAllWhole(f, EscapeShown);
  }

  /** Collapsing `b` rewrites both copies of its text, the second one inside `a`. */
  lemma EscapeFirstReplaced()
    ensures ReplaceAll(Escape, EscapeFirst.whole, Placeholder("b")) == EscapeAfterFirst
  {
    var f := EscapeFirst.whole;
    var t := EscapeSecond.whole;
    assert Placeholder("b") == EscapeShown;
    EscapeText();
    assert Escape == Escape[0..8] + Escape[8..23];
    AppendSlices(f, t);
    ReplaceAllHits(f + t, f, EscapeShown);
    EscapeInnerReplaced();
  }

  lemma AppendSlices(a: string, b: string)
    ensures (a + b)[..|a|] == a && (a + b)[|a|..] == b
  {
  }

  /** What `str::replace` leaves of the file after collapsing `b`. */
  const EscapeAfterFirst: string := EscapeShown + ("fn a(x " + EscapeShown)

  /** After that, `a`'s text occurs nowhere. */
  lemma EscapeSecondGone()
    ensures !Contains(EscapeAfterFirst, EscapeSecond.whole)
  {
    var r := EscapeAfterFirst;
    var w := EscapeSecond.whole;
    assert |r| == 41 && |w| == 15;
    assert w[0] == 'f' && w[3] == 'a' && w[13] == '{';
    forall i | 0 <= i <= |r| - |w|
      ensures !OccursAt(r, w, i)
    {
      assert r[i..i + 15][0] == r[i] && r[i..i + 15][3] == r[i + 3] && r[i..i + 15][13] == r[i + 13];
    }
  }

  /** Nor does `a`'s placeholder. */
  lemma EscapeNoPlaceholder()
    ensures !Contains(EscapeAfterFirst, Placeholder("a"))
  {
    var r := EscapeAfterFirst;
    var p := Placeholder("a");
    assert |r| == 41 && |p| == 17;
    assert p[3] == 'a' && p[5] == '.';
    forall i | 0 <= i <= |r| - |p|
      ensures !OccursAt(r, p, i)
    {
      assert r[i..i + 17][3] == r[i + 3] && r[i..i + 17][5] == r[i + 5];
    }
  }

  /**
   * As written, `a` escapes collapsing although it neither is `z` nor calls
   * it: replacing `b` first rewrites the copy inside `a`, so the replacement
   * for `a` finds nothing. The in-place replacement does collapse it.
   */
  lemma ReplaceLeavesCollapsedWhole()
    ensures var ms := Matches(Escape, 0);
            && ms == [EscapeFirst, EscapeSecond]
            && !Kept(ms[1], CallerNames(ms, "z"), "z")
            && ModifiedContent(Escape, "z") == EscapeAfterFirst
            && !Contains(ModifiedContent(Escape, "z"), Placeholder(ms[1].name))
            && Contains(CollapseBodies(Escape, "z"), Placeholder(ms[1].name))
  {
    var r := EscapeAfterFirst;
    EscapeMatchList();
    EscapeCallers();
    EscapeFirstReplaced();
    EscapeSecondGone();
    EscapeNoPlaceholder();
    assert [EscapeFirst, EscapeSecond][1..] == [EscapeSecond];
    assert ReplaceEach(Escape, [EscapeFirst, EscapeSecond], [], "z") == ReplaceEach(r, [EscapeSecond], [], "z");
    ReplaceAbsent(r, EscapeSecond.whole, Placeholder("a"));
    assert ReplaceEach(r, [EscapeSecond], [], "z") == ReplaceEach(r, [], [], "z");
    assert EscapeSecond in Matches(Escape, 0);
  }
}
