/**
 * The order `all_files.sort()` uses (src/main.rs): tuples
 * `(u8, PathBuf, String, Option<String>)` compare field by field; a path
 * compares by its components (a root before `.` before `..` before a
 * named component, named components by their text), text compares by
 * characters (the byte order of UTF-8 text is its code point order), and
 * `None` comes before any `Some`.
 */
module Order {
  import opened Text
  import opened Classify

  datatype Ordering = Less | Equal | Greater

  function Flip(o: Ordering): Ordering {
    match o
    case Less => Greater
    case Equal => Equal
    case Greater => Less
  }

  function IntCmp(a: int, b: int): (o: Ordering)
    ensures o == Less <==> a < b
    ensures o == Greater <==> a > b
  {
    if a < b then Less else if a > b then Greater else Equal
  }

  /** Lexicographic comparison of two strings. */
  function StrCmp(a: string, b: string): (o: Ordering)
    ensures o == Equal <==> a == b
  {
    if a == [] && b == [] then Equal
    else if a == [] then Less
    else if b == [] then Greater
    else if a[0] < b[0] then Less
    else if a[0] > b[0] then Greater
    else
      assert a == [a[0]] + a[1..] && b == [b[0]] + b[1..];
      StrCmp(a[1..], b[1..])
  }

  lemma {:induction false} StrCmpFlip(a: string, b: string)
    ensures StrCmp(b, a) == Flip(StrCmp(a, b))
  {
    if a != [] && b != [] && a[0] == b[0] {
      StrCmpFlip(a[1..], b[1..]);
    }
  }

  /** A component of a Unix path, as `Path::components` yields it. */
  datatype Component = RootDir | CurDir | ParentDir | Normal(name: string)

  function Rank(c: Component): nat {
    match c
    case RootDir => 0
    case CurDir => 1
    case ParentDir => 2
    case Normal(_) => 3
  }

  function ComponentCmp(a: Component, b: Component): (o: Ordering)
    ensures o == Equal <==> a == b
  {
    if a.Normal? && b.Normal? then StrCmp(a.name, b.name) else IntCmp(Rank(a), Rank(b))
  }

  lemma ComponentCmpFlip(a: Component, b: Component)
    ensures ComponentCmp(b, a) == Flip(ComponentCmp(a, b))
  {
    if a.Normal? && b.Normal? {
      StrCmpFlip(a.name, b.name);
    }
  }

  function ComponentsCmp(a: seq<Component>, b: seq<Component>): (o: Ordering)
    ensures o == Equal <==> a == b
  {
    if a == [] && b == [] then Equal
    else if a == [] then Less
    else if b == [] then Greater
    else if ComponentCmp(a[0], b[0]) != Equal then ComponentCmp(a[0], b[0])
    else
      assert a == [a[0]] + a[1..] && b == [b[0]] + b[1..];
      ComponentsCmp(a[1..], b[1..])
  }

  lemma {:induction false} ComponentsCmpFlip(a: seq<Component>, b: seq<Component>)
    ensures ComponentsCmp(b, a) == Flip(ComponentsCmp(a, b))
  {
    if a != [] && b != [] {
      ComponentCmpFlip(a[0], b[0]);
      if ComponentCmp(a[0], b[0]) == Equal {
        ComponentsCmpFlip(a[1..], b[1..]);
      }
    }
  }

  /** The pieces between slashes after the first: empty pieces and `.` are skipped. */
  function LaterComponents(pieces: seq<string>): (cs: seq<Component>)
    ensures forall k :: 0 <= k < |cs| ==> cs[k] == ParentDir || (cs[k].Normal? && cs[k].name !in {"", ".", ".."})
  {
    if pieces == [] then []
    else
      var p := pieces[0];
      var c := if p == "" || p == "." then [] else if p == ".." then [ParentDir] else [Normal(p)];
      c + LaterComponents(pieces[1..])
  }

  /**
   * `Path::components` on Unix: a leading '/' is the root; otherwise a
   * leading `.` piece is the current directory; the rest follow.
   */
  function Components(path: string): (cs: seq<Component>)
    ensures forall k :: 1 <= k < |cs| ==> cs[k] == ParentDir || cs[k].Normal?
    ensures |cs| > 0 && cs[0] == RootDir <==> |path| > 0 && path[0] == '/'
  {
    var pieces := Split(path, '/');
    if |path| > 0 && path[0] == '/' then [RootDir] + LaterComponents(pieces[1..])
    else if pieces[0] == "." then [CurDir] + LaterComponents(pieces[1..])
    else LaterComponents(pieces)
  }

  function OptCmp(a: Option<string>, b: Option<string>): (o: Ordering)
    ensures o == Equal <==> a == b
  {
    match (a, b)
    case (None, None) => Equal
    case (None, Some(_)) => Less
    case (Some(_), None) => Greater
    case (Some(x), Some(y)) => StrCmp(x, y)
  }

  lemma OptCmpFlip(a: Option<string>, b: Option<string>)
    ensures OptCmp(b, a) == Flip(OptCmp(a, b))
  {
    if a.Some? && b.Some? {
      StrCmpFlip(a.value, b.value);
    }
  }

  /** The derived tuple order: tier, then path, then summary, then full body. */
  function RecordCmp(x: FileRecord, y: FileRecord): Ordering {
    var t := IntCmp(x.tier, y.tier);
    if t != Equal then t
    else
      var p := ComponentsCmp(Components(x.path), Components(y.path));
      if p != Equal then p
      else
        var s := StrCmp(x.summary, y.summary);
        if s != Equal then s else OptCmp(x.full, y.full)
  }

  /** Swapping the arguments flips the answer: the order is total and antisymmetric. */
  lemma RecordCmpFlip(x: FileRecord, y: FileRecord)
    ensures RecordCmp(y, x) == Flip(RecordCmp(x, y))
  {
    ComponentsCmpFlip(Components(x.path), Components(y.path));
    StrCmpFlip(x.summary, y.summary);
    OptCmpFlip(x.full, y.full);
  }

  /** Two records compare equal exactly when they agree on every field, up to how the path is spelled. */
  lemma RecordCmpEqual(x: FileRecord, y: FileRecord)
    ensures RecordCmp(x, y) == Equal <==>
              x.tier == y.tier && Components(x.path) == Components(y.path)
              && x.summary == y.summary && x.full == y.full
  {
  }

  /** A record never sorts after one of a higher tier. */
  lemma RecordCmpTier(x: FileRecord, y: FileRecord)
    ensures RecordCmp(x, y) != Greater ==> x.tier <= y.tier
    ensures x.tier < y.tier ==> RecordCmp(x, y) == Less
  {
  }

  /** Neighbours are in order. */
  predicate Sorted(s: seq<FileRecord>) {
    forall k :: 0 < k < |s| ==> RecordCmp(s[k - 1], s[k]) != Greater
  }

  /** In a sorted sequence the tiers never decrease. */
  lemma {:induction false} SortedTiers(s: seq<FileRecord>)
    requires Sorted(s)
    ensures forall i, j :: 0 <= i <= j < |s| ==> s[i].tier <= s[j].tier
    decreases |s|
  {
    if |s| > 1 {
      var t := s[..|s| - 1];
      assert Sorted(t) by {
        forall k | 0 < k < |t| ensures RecordCmp(t[k - 1], t[k]) != Greater {
          assert t[k - 1] == s[k - 1] && t[k] == s[k];
        }
      }
      SortedTiers(t);
      RecordCmpTier(s[|s| - 2], s[|s| - 1]);
      forall i, j | 0 <= i <= j < |s|
        ensures s[i].tier <= s[j].tier
      {
        if j < |s| - 1 {
          assert s[i] == t[i] && s[j] == t[j];
        } else if i < |s| - 1 {
          assert s[i] == t[i] && s[|s| - 2] == t[|s| - 2];
        }
      }
    }
  }
}
