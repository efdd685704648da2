/**
 * The text patterns of src/main.rs: the `::` split of the function path, the
 * definition pattern `fn\s+NAME\s*\(`, the module declaration pattern
 * `\bmod\s+X\s*;`, the caller test `NAME(` / `NAME (`, and the escaped
 * header pattern of `extract_function_body`. Each regex is stated as the
 * shape of the text it matches at a position; a name is taken as literal text.
 */
module Patterns {
  import opened Text

  /** `function_path.split("::")`: the `::`-separated segments of the path, left to right. */
  function SplitPath(path: string): (parts: seq<string>)
    ensures |parts| >= 1
  {
    if |path| >= 2 && path[0] == ':' && path[1] == ':' then [[]] + SplitPath(path[2..])
    else if path == [] then [[]]
    else
      var rest := SplitPath(path[1..]);
      [[path[0]] + rest[0]] + rest[1..]
  }

  /** Joining the segments with `::` gives back the path. */
  lemma {:induction false} JoinSplitPath(path: string)
    ensures Join(SplitPath(path), "::") == path
  {
    if |path| >= 2 && path[0] == ':' && path[1] == ':' {
      var rest := SplitPath(path[2..]);
      JoinSplitPath(path[2..]);
      var ps := [[]] + rest;
      assert ps[1..] == rest;
      assert Join(ps, "::") == [] + "::" + Join(rest, "::");
      assert path == "::" + path[2..];
    } else if path != [] {
      var rest := SplitPath(path[1..]);
      JoinSplitPath(path[1..]);
      JoinConsFirst(path[0], rest, "::");
      assert path == [path[0]] + path[1..];
    }
  }

  /** A path without `::` is a single segment. */
  lemma {:induction false} SplitPathSingle(path: string)
    requires !Contains(path, "::")
    ensures SplitPath(path) == [path]
  {
    if path != [] {
      assert |path| >= 2 && path[0] == ':' && path[1] == ':' ==> OccursAt(path, "::", 0);
      assert !Contains(path[1..], "::") by {
        if Contains(path[1..], "::") {
          var i :| 0 <= i <= |path[1..]| - 2 && OccursAt(path[1..], "::", i);
          assert path[i + 1..i + 3] == path[1..][i..i + 2];
          assert OccursAt(path, "::", i + 1);
        }
      }
      SplitPathSingle(path[1..]);
      assert [path[0]] + path[1..] == path;
    }
  }

  /** The last segment, the name of the target function (`parts.last()`). */
  function FunctionName(path: string): string {
    var parts := SplitPath(path);
    parts[|parts| - 1]
  }

  /** Every segment but the last: the modules the function should live in. */
  function ModuleParts(path: string): seq<string> {
    var parts := SplitPath(path);
    parts[..|parts| - 1]
  }

  /**
   * The segments are the module parts followed by the function name: the
   * `"main"` fallback for a path without segments is never taken, and a path
   * without `::` has no module parts.
   */
  lemma PathSegments(path: string)
    ensures ModuleParts(path) + [FunctionName(path)] == SplitPath(path)
    ensures Join(ModuleParts(path) + [FunctionName(path)], "::") == path
    ensures !Contains(path, "::") ==> ModuleParts(path) == [] && FunctionName(path) == path
  {
    JoinSplitPath(path);
    if !Contains(path, "::") {
      SplitPathSingle(path);
    }
  }

  /** `fn\s+NAME\s*\(` matches at `i`, with NAME at `a` and the parenthesis at `k`. */
  predicate DefinitionAt(s: string, name: string, i: nat, a: nat, k: nat) {
    && i + 2 < a && a + |name| <= k < |s|
    && s[i] == 'f' && s[i + 1] == 'n'
    && AllWhitespace(s, i + 2, a)
    && s[a..a + |name|] == name
    && AllWhitespace(s, a + |name|, k)
    && s[k] == '('
  }

  /** `Regex::new(r"fn\s+NAME\s*\(").is_match(s)`: `s` looks like it defines `name`. */
  predicate Defines(s: string, name: string) {
    exists i: nat, a: nat, k: nat | i < a <= k < |s| :: DefinitionAt(s, name, i, a, k)
  }

  /** `\bmod\s+X\s*;` matches at `i`, with X at `a` and the semicolon at `k`. */
  predicate ModDeclAt(s: string, x: string, i: nat, a: nat, k: nat) {
    && i + 3 < a && a + |x| <= k < |s|
    && (i == 0 || !IsWordChar(s[i - 1]))
    && s[i] == 'm' && s[i + 1] == 'o' && s[i + 2] == 'd'
    && AllWhitespace(s, i + 3, a)
    && s[a..a + |x|] == x
    && AllWhitespace(s, a + |x|, k)
    && s[k] == ';'
  }

  /** `Regex::new(r"\bmod\s+X\s*;").is_match(s)`: `s` declares module `x`. */
  predicate DeclaresModule(s: string, x: string) {
    exists i: nat, a: nat, k: nat | i < a <= k < |s| :: ModDeclAt(s, x, i, a, k)
  }

  /** `s.contains("NAME(") || s.contains("NAME (")`: `s` looks like it calls `name`. */
  predicate CallsTarget(s: string, name: string) {
    Contains(s, name + "(") || Contains(s, name + " (")
  }

  /**
   * The escaped header pattern `fn NAME\([^\)]*\) \{` matches at `i`, with
   * its closing parenthesis at `p`.
   */
  predicate HeaderAt(s: string, name: string, i: nat, p: nat) {
    var h := i + |name| + 4;
    && h <= p && p + 3 <= |s|
    && s[i..h] == "fn " + name + "("
    && ')' !in s[h..p]
    && s[p..p + 3] == ") {"
  }

  predicate HasHeaderAt(s: string, name: string, i: nat) {
    exists p | i <= p < |s| :: HeaderAt(s, name, i, p)
  }

  /** The first position at or after `from` where the header pattern matches. */
  function FirstHeader(s: string, name: string, from: nat): (r: Option<nat>)
    requires from <= |s|
    ensures r.Some? ==> from <= r.value < |s| && HasHeaderAt(s, name, r.value)
    ensures r.Some? ==> forall j | from <= j < r.value :: !HasHeaderAt(s, name, j)
    ensures r.None? ==> forall j | from <= j < |s| :: !HasHeaderAt(s, name, j)
    decreases |s| - from
  {
    if from == |s| then None
    else if HasHeaderAt(s, name, from) then Some(from)
    else FirstHeader(s, name, from + 1)
  }

  /**
   * `extract_function_body`: the suffix of `content` that starts where the
   * header of `name` first matches, or the empty string when it never does.
   */
  function ExtractFunctionBody(content: string, name: string): (r: string)
    ensures |r| <= |content|
    ensures r == [] <==> forall i | 0 <= i < |content| :: !HasHeaderAt(content, name, i)
    ensures r != [] ==>
              var i := |content| - |r|;
              && r == content[i..]
              && HasHeaderAt(content, name, i)
              && forall j | 0 <= j < i :: !HasHeaderAt(content, name, j)
  {
    match FirstHeader(content, name, 0)
    case Some(i) => content[i..]
    case None => []
  }
}
