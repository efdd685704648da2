/**
 * Context assembly (the second half of `main`, src/main.rs): the records of
 * `find_files`, plus the Cargo.toml record when the manifest could be read,
 * are sorted; one switch decides whether full bodies are used; every record
 * is framed with `Top of File` / `End of File` lines after the preamble; the
 * result is cut to the window.
 *
 * The preamble (the instructions, the function path, the OS and the
 * compiler version) and the manifest read are inputs.
 */
module Assemble {
  import opened Text
  import opened Classify
  import opened Order

  /** What a record contributes to the draft count: its full body when it has one, else its summary, in bytes. */
  function Weight(r: FileRecord): nat {
    match r.full
    case Some(op) => Utf8Len(op)
    case None => Utf8Len(r.summary)
  }

  /** `draft_counts`: the total weight of the records of tier 2 or less. */
  function DraftCount(s: seq<FileRecord>): nat {
    if s == [] then 0
    else DraftCount(s[..|s| - 1]) + (if s[|s| - 1].tier <= 2 then Weight(s[|s| - 1]) else 0)
  }

  lemma {:induction false} DraftCountConcat(a: seq<FileRecord>, b: seq<FileRecord>)
    ensures DraftCount(a + b) == DraftCount(a) + DraftCount(b)
    decreases |b|
  {
    if b == [] {
      assert a + b == a;
    } else {
      var b' := b[..|b| - 1];
      var y := b[|b| - 1];
      var c := if y.tier <= 2 then Weight(y) else 0;
      DraftCountConcat(a, b');
      assert (a + b)[..|a + b| - 1] == a + b';
      assert (a + b)[|a + b| - 1] == y;
      assert DraftCount(a + b) == DraftCount(a + b') + c;
      assert DraftCount(b) == DraftCount(b') + c;
    }
  }

  /** The draft count does not depend on the order of the records. */
  lemma {:induction false} DraftCountPermutation(a: seq<FileRecord>, b: seq<FileRecord>)
    requires multiset(a) == multiset(b)
    ensures DraftCount(a) == DraftCount(b)
    decreases |a|
  {
    if a != [] {
      var x := a[|a| - 1];
      var a' := a[..|a| - 1];
      assert a == a' + [x];
      assert x in multiset(b);
      var k :| 0 <= k < |b| && b[k] == x;
      var b' := b[..k] + b[k + 1..];
      RemoveOne(a', b, k);
      DraftCountPermutation(a', b');
      DraftCountRemove(b, k);
    }
  }

  /** Taking `b[k]` out of `b`, whose elements are those of `a'` and `b[k]`, leaves those of `a'`. */
  lemma RemoveOne(a': seq<FileRecord>, b: seq<FileRecord>, k: nat)
    requires k < |b| && multiset(a' + [b[k]]) == multiset(b)
    ensures multiset(b[..k] + b[k + 1..]) == multiset(a')
  {
    var x := b[k];
    assert b == b[..k] + [x] + b[k + 1..];
    assert multiset(b) == multiset(b[..k]) + multiset{x} + multiset(b[k + 1..]);
    assert multiset(a' + [x]) == multiset(a') + multiset{x};
    assert multiset(b[..k] + b[k + 1..]) == multiset(b[..k]) + multiset(b[k + 1..]);
    forall o
      ensures multiset(b[..k] + b[k + 1..])[o] == multiset(a')[o]
    {
      assert (multiset(b[..k]) + multiset{x} + multiset(b[k + 1..]))[o] == (multiset(a') + multiset{x})[o];
    }
  }

  /** The draft count of `b` is that of `b` without `b[k]`, plus what `b[k]` contributes. */
  lemma DraftCountRemove(b: seq<FileRecord>, k: nat)
    requires k < |b|
    ensures DraftCount(b) == DraftCount(b[..k] + b[k + 1..]) + (if b[k].tier <= 2 then Weight(b[k]) else 0)
  {
    SplitAt(b, k);
    DraftCountSplit(b[..k], b[k], b[k + 1..]);
  }

  lemma SplitAt<T>(b: seq<T>, k: nat)
    requires k < |b|
    ensures b == (b[..k] + [b[k]]) + b[k + 1..]
  {
  }

  lemma DraftCountSplit(l: seq<FileRecord>, x: FileRecord, r: seq<FileRecord>)
    ensures DraftCount((l + [x]) + r) == DraftCount(l + r) + (if x.tier <= 2 then Weight(x) else 0)
  {
    DraftCountConcat(l + [x], r);
    DraftCountSnoc(l, x);
    DraftCountConcat(l, r);
  }

  lemma DraftCountSnoc(s: seq<FileRecord>, y: FileRecord)
    ensures DraftCount(s + [y]) == DraftCount(s) + (if y.tier <= 2 then Weight(y) else 0)
  {
    assert (s + [y])[..|s|] == s;
  }

  function Header(path: string): string {
    "\n\n\n////// Top of File: " + path + " //////\n\n"
  }

  function Footer(path: string): string {
    "\n\n////// End of File: " + path + " //////\n\n\n"
  }

  /** The text emitted for a record: its full body in full mode when it has one, its summary otherwise. */
  function Chosen(r: FileRecord, useFull: bool): string {
    if useFull && r.full.Some? then r.full.value else r.summary
  }

  function Section(r: FileRecord, useFull: bool): string {
    Header(r.path) + Chosen(r, useFull) + Footer(r.path)
  }

  /** Every record framed, in order. */
  function Sections(s: seq<FileRecord>, useFull: bool): string {
    if s == [] then [] else Sections(s[..|s| - 1], useFull) + Section(s[|s| - 1], useFull)
  }

  lemma {:induction false} SectionsConcat(a: seq<FileRecord>, b: seq<FileRecord>, useFull: bool)
    ensures Sections(a + b, useFull) == Sections(a, useFull) + Sections(b, useFull)
    decreases |b|
  {
    if b == [] {
      assert a + b == a;
    } else {
      var b' := b[..|b| - 1];
      var y := b[|b| - 1];
      SectionsConcat(a, b', useFull);
      assert a + b == (a + b') + [y] && b == b' + [y];
      SectionsSnoc(a + b', y, useFull);
      SectionsSnoc(b', y, useFull);
      AppendAssoc(Sections(a, useFull), Sections(b', useFull), Section(y, useFull));
    }
  }

  lemma SectionsSnoc(s: seq<FileRecord>, y: FileRecord, useFull: bool)
    ensures Sections(s + [y], useFull) == Sections(s, useFull) + Section(y, useFull)
  {
    assert (s + [y])[..|s|] == s;
  }

  /**
   * The framed text of a list of records is the framed text of those before
   * record `k`, then record `k`'s header, chosen text and footer, then the
   * framed text of those after it.
   */
  lemma SectionsAt(s: seq<FileRecord>, k: nat, useFull: bool)
    requires k < |s|
    ensures Sections(s, useFull) ==
              Sections(s[..k], useFull) + Header(s[k].path) + Chosen(s[k], useFull) + Footer(s[k].path)
              + Sections(s[k + 1..], useFull)
  {
    assert s == s[..k] + [s[k]] + s[k + 1..];
    SectionsConcat(s[..k] + [s[k]], s[k + 1..], useFull);
    SectionsConcat(s[..k], [s[k]], useFull);
    assert [s[k]][..0] == [];
  }

  /** In summary mode the full bodies play no part in the output. */
  lemma {:induction false} SummaryModeIgnoresFull(s: seq<FileRecord>, t: seq<FileRecord>)
    requires |s| == |t|
    requires forall k :: 0 <= k < |s| ==> s[k].path == t[k].path && s[k].summary == t[k].summary
    ensures Sections(s, false) == Sections(t, false)
    decreases |s|
  {
    if s != [] {
      SummaryModeIgnoresFull(s[..|s| - 1], t[..|t| - 1]);
    }
  }

  const MissingManifestNote: string := "Unable to find Cargo.toml, this is probably a new project\n"

  /** The records to sort: those found, then the manifest as a tier-2 record when it was read. */
  function AllFiles(found: seq<FileRecord>, manifestPath: string, manifest: Option<string>): (files: seq<FileRecord>)
    ensures |files| == |found| + (if manifest.Some? then 1 else 0)
    ensures files[..|found|] == found
  {
    match manifest
    case Some(body) => found + [FileRecord(2, manifestPath, body, None)]
    case None => found
  }

  /**
   * With the manifest read there is a tier-2 record for it, without a full
   * body; without it there is none. The records of `find_files` are never
   * tier 2 (`Classify.FindFiles` ensures it), so the manifest record is the
   * only one of that tier.
   */
  lemma ManifestRecord(found: seq<FileRecord>, manifestPath: string, manifest: Option<string>)
    requires forall k :: 0 <= k < |found| ==> found[k].tier != 2
    ensures var files := AllFiles(found, manifestPath, manifest);
            && (manifest.Some? ==> FileRecord(2, manifestPath, manifest.value, None) in files)
            && (forall r | r in files && r.tier == 2 :: manifest.Some? && r == FileRecord(2, manifestPath, manifest.value, None))
  {
    var files := AllFiles(found, manifestPath, manifest);
    if manifest.Some? {
      assert files[|found|] == FileRecord(2, manifestPath, manifest.value, None);
    }
    forall r | r in files && r.tier == 2
      ensures manifest.Some? && r == FileRecord(2, manifestPath, manifest.value, None)
    {
      var k :| 0 <= k < |files| && files[k] == r;
      assert forall j :: 0 <= j < |found| ==> files[j] == found[j];
      assert k == |found|;
    }
  }

  /** The text in front of the records: the preamble, and the note about a missing manifest. */
  function Prefix(preamble: string, manifest: Option<string>): string {
    if manifest.Some? then preamble else preamble + MissingManifestNote
  }

  /**
   * The final cut: when the text is longer than `w` bytes it keeps its first
   * `w` characters. The result never has more than `w` characters, is a
   * prefix of the text, and is the whole text when that fits in `w` bytes.
   */
  function FitWindow(s: string, w: nat): (r: string)
    ensures |r| <= w
    ensures |r| <= |s| && r == s[..|r|]
    ensures Utf8Len(s) <= w ==> r == s
    ensures Utf8Len(s) > w ==> |r| == (if |s| < w then |s| else w)
  {
    if Utf8Len(s) > w then (if |s| < w then s else s[..w]) else s
  }

  /**
   * Midway through sinking the record at `i`, now at `j`: every neighbouring
   * pair up to `i` is in order except the one ending at `j`, and the records
   * on either side of `j` are in order with each other.
   */
  predicate Sinking(s: seq<FileRecord>, i: nat, j: nat) {
    j <= i < |s|
    && (forall k :: 0 < k <= i && k != j ==> RecordCmp(s[k - 1], s[k]) != Greater)
    && (0 < j < i ==> RecordCmp(s[j - 1], s[j + 1]) != Greater)
  }

  /** Swapping the record at `j` with a bigger left neighbour moves the gap one place down. */
  lemma SwapDown(s: seq<FileRecord>, i: nat, j: nat)
    requires Sinking(s, i, j) && 0 < j && RecordCmp(s[j - 1], s[j]) == Greater
    ensures Sinking(s[j - 1 := s[j]][j := s[j - 1]], i, j - 1)
    ensures multiset(s[j - 1 := s[j]][j := s[j - 1]]) == multiset(s)
  {
    var t := s[j - 1 := s[j]][j := s[j - 1]];
    RecordCmpFlip(s[j - 1], s[j]);
    forall k | 0 < k <= i && k != j - 1
      ensures RecordCmp(t[k - 1], t[k]) != Greater
    {
      if k == j + 1 {
        assert t[k - 1] == s[j - 1] && t[k] == s[j + 1];
      } else if k != j {
        assert t[k - 1] == s[k - 1] && t[k] == s[k];
      }
    }
    if 0 < j - 1 {
      assert t[j - 2] == s[j - 2] && t[j] == s[j - 1];
    }
  }

  /**
   * One step of the sort: the record at `i` sinks past every bigger
   * neighbour, so that the first `i + 1` records are in order; the records
   * after `i` stay where they were.
   */
  method SinkInto(a: array<FileRecord>, i: nat)
    requires i < a.Length
    requires forall k :: 0 < k < i ==> RecordCmp(a[k - 1], a[k]) != Greater
    modifies a
    ensures forall k :: 0 < k <= i ==> RecordCmp(a[k - 1], a[k]) != Greater
    ensures multiset(a[..]) == multiset(old(a[..]))
    ensures a[i + 1..] == old(a[i + 1..])
  {
    var j: nat := i;
    while j > 0 && RecordCmp(a[j - 1], a[j]) == Greater
      invariant Sinking(a[..], i, j)
      invariant multiset(a[..]) == multiset(old(a[..]))
      invariant a[i + 1..] == old(a[i + 1..])
    {
      SwapDown(a[..], i, j);
      a[j - 1], a[j] := a[j], a[j - 1];
      j := j - 1;
    }
    assert forall k :: 0 < k <= i ==> RecordCmp(a[..][k - 1], a[..][k]) != Greater;
  }

  /**
   * `all_files.sort()`, as an insertion sort: the array ends up sorted and
   * holds the same records.
   */
  method SortRecords(a: array<FileRecord>)
    modifies a
    ensures Sorted(a[..])
    ensures multiset(a[..]) == multiset(old(a[..]))
  {
    var i := 0;
    while i < a.Length
      invariant 0 <= i <= a.Length
      invariant forall k :: 0 < k < i ==> RecordCmp(a[k - 1], a[k]) != Greater
      invariant multiset(a[..]) == multiset(old(a[..]))
    {
      SinkInto(a, i);
      i := i + 1;
    }
  }

  lemma AppendAssoc(a: string, b: string, c: string)
    ensures a + b + c == a + (b + c)
  {
  }

  lemma AppendThree(s: string, h: string, t: string, f: string)
    ensures s + h + t + f == s + (h + t + f)
  {
  }

  /**
   * The record loop of `main`: each record's header, chosen text and footer
   * appended to `prefix`, in order.
   */
  method AppendSections(prefix: string, order: seq<FileRecord>, useFull: bool) returns (result: string)
    ensures result == prefix + Sections(order, useFull)
  {
    result := prefix;
    var i := 0;
    assert order[..0] == [];
    while i < |order|
      invariant 0 <= i <= |order|
      invariant result == prefix + Sections(order[..i], useFull)
    {
      var r := order[i];
      ghost var before := result;
      var text: string;
      if useFull {
        match r.full {
          case Some(op) => text := op;
          case None => text := r.summary;
        }
      } else {
        text := r.summary;
      }
      var header := Header(r.path);
      var footer := Footer(r.path);
      result := result + header;
      result := result + text;
      result := result + footer;
      assert result == before + Section(r, useFull) by {
        assert text == Chosen(r, useFull);
        AppendThree(before, header, text, footer);
      }
      assert Sections(order[..i + 1], useFull) == Sections(order[..i], useFull) + Section(r, useFull) by {
        assert order[..i + 1][..i] == order[..i];
        assert order[..i + 1][i] == r;
      }
      AppendAssoc(prefix, Sections(order[..i], useFull), Section(r, useFull));
      i := i + 1;
    }
    assert order[..|order|] == order;
  }

  /**
   * The assembly of `main`: the preamble is measured, the manifest record is
   * added (or the note about its absence appended), the records are sorted,
   * full mode is chosen when the draft count plus the preamble fits the
   * window of `windowK` KiB, every record is framed in sorted order, and
   * the text is cut to the window.
   */
  method AssembleContext(preamble: string, found: seq<FileRecord>, manifestPath: string,
                         manifest: Option<string>, windowK: nat)
    returns (result: string, useFull: bool, ghost sorted: seq<FileRecord>)
    ensures Sorted(sorted) && multiset(sorted) == multiset(AllFiles(found, manifestPath, manifest))
    ensures useFull <==> DraftCount(AllFiles(found, manifestPath, manifest)) + Utf8Len(preamble) <= windowK * 1024
    ensures result == FitWindow(Prefix(preamble, manifest) + Sections(sorted, useFull), windowK * 1024)
  {
    var window := windowK * 1024;
    result := preamble;
    var extra := Utf8Len(result);
    var files := found;
    match manifest {
      case Some(body) =>
        files := files + [FileRecord(2, manifestPath, body, None)];
      case None =>
        result := result + MissingManifestNote;
    }
    assert files == AllFiles(found, manifestPath, manifest);
    var a := new FileRecord[|files|](k requires 0 <= k < |files| => files[k]);
    assert a[..] == files;
    SortRecords(a);
    var order := a[..];
    sorted := order;
    DraftCountPermutation(files, order);
    assert result == Prefix(preamble, manifest);
    var draft := DraftCount(order);
    useFull := draft + extra <= window;
    result := AppendSections(result, order, useFull);
    result := FitWindow(result, window);
  }
}
