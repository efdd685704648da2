# cargo-context-ranger, modelled in Dafny

cargo-context-ranger builds one text for a language model about a single
Rust function. It walks the `src` tree of a Cargo project and gives every
`.rs` file a tier:

- 0: defines the function in the right modules
- 1: calls it
- 3: defines a function of that name elsewhere
- 4: anything else

`Cargo.toml` is added as tier 2. In tier-0 files, the functions that neither
are the target nor call it are meant to be cut down to `fn name(...) { ... }`.
As written, the cut works by text search, so it can also rewrite a function
that is kept, and it can leave a function whole that should have been cut
(see Findings). The
records are sorted, and one switch decides whether full bodies or summaries
are used. Every file is framed with `Top of File` / `End of File` lines after
a preamble, and the whole text is cut to a window of `window_size_k * 1024`.

The model covers the deterministic core of `src/main.rs`:

- `text.dfy` (`Text`): the Rust `str` operations the program relies on:
  - `trim`, over the full Unicode White_Space set;
  - `split` / `join`;
  - `contains`;
  - `replace`;
  - the UTF-8 byte length `len`.
- `normalise.dfy` (`Normalisation`): the per-line trim and blank-line removal applied to every file.
- `patterns.dfy` (`Patterns`): the `::` split of the function path, and the shapes of text that these match:
  - the definition pattern `fn\s+NAME\s*\(`;
  - the module pattern `\bmod\s+X\s*;`;
  - the caller test `NAME(` / `NAME (`;
  - the header pattern of `extract_function_body`.

  It also has `extract_function_body` itself.
- `collapse.dfy` (`Collapse`): `modify_function_bodies`.
  - The regex `fn\s+(\w+)\s*\((.*?)\)\s*\{([\s\S]*?)\}` is written out as a scanner. The scanner follows the regex engine's leftmost-first choice and its lazy quantifiers.
  - The method keeps the source's two loops, and it is proved equal to a specification function.
  - The tier-0 summary is that specification, as the code computes it. An in-place version of the replacement, `CollapseBodies`, stands beside it with the placement of every match proved (see Findings).
- `classify.dfy` (`Classify`): the per-file tiering of `find_files`, plus the `.rs` extension test.
- `order.dfy` (`Order`): the order that `sort()` uses on `(u8, PathBuf, String, Option<String>)`:
  - paths compare component by component;
  - text compares by code point, which is the byte order of UTF-8;
  - `None` comes before `Some`.
- `assemble.dfy` (`Assemble`): the assembly half of `main`:
  - an in-place insertion sort over an array;
  - the draft count;
  - the full-or-summary switch;
  - the record loop that appends framed sections;
  - the final cut.

Inputs the program gets from the outside world are parameters:

- The walked files are a sequence of `(path, raw text)` entries, in walk order.
- The manifest read is an `Option<string>`.
- The preamble (the persona text, the function path, the OS name and the `rustc --version` output) is a string.

A few points where the code does something other than a first reading suggests; the model follows the code:

- **Module check.** The check is "every module part occurs in the path OR *some* `mod X;` declaration matches". It is not "every declaration matches" (src/main.rs:104-105).
- **Tier 1.** A tier-1 record's summary is the normalised text, uncollapsed, and its full body is `None` (src/main.rs:115).
- **Tier 0.** The tier-0 summary is computed from the raw file text, not the normalised one (src/main.rs:107). Body collapsing:
  - applies to tier-0 files only;
  - keeps functions by name: the target and every function whose body calls it;
  - works on regex matches whose body ends at the first `}`, not on brace-balanced blocks;
  - uses the placeholder `fn name(...) { ... }`;
  - replaces by text search, one match after another, so an earlier replacement can change the text of a later match (see Findings).
- **Sorting.** `sort()` orders by the whole tuple (tier, path, summary, full body), not by tier alone with walk order kept (src/main.rs:168).
- **Missing manifest.** The note about the missing `Cargo.toml` is appended after the preamble is measured, so the switch does not count it (src/main.rs:154,164).
- **The cut.** The cut is triggered by byte length but keeps a number of *characters* (src/main.rs:195-196). The result therefore has at most `window` characters. With non-ASCII text it can still exceed `window` bytes.

## Model

| member | source | states |
|---|---|---|
| `Text.Trim` | src/main.rs:96 | the result has no whitespace at either end, is a contiguous slice of the line, and only whitespace of the line lies outside it |
| `Text.ReplaceAbsent` | src/main.rs:61 | `str::replace` (modelled by `Text.ReplaceAll`) with a non-empty pattern that does not occur leaves the text unchanged |
| `Text.Utf8Len` | src/main.rs:154 | the byte length lies between one and four bytes per character, and is the character count for ASCII text |
| `Text.JoinSplit` | src/main.rs:95-99 | joining the pieces of a split at a separator, with that separator, gives the string back |
| `Normalisation.Lines` | src/main.rs:95 | `lines()` yields pieces that never contain a line feed |
| `Normalisation.CleanLines` | src/main.rs:96-97 | no more lines than the input, and every line kept is non-empty and trimmed |
| `Normalisation.Normalise` | src/main.rs:95-99 | the text is empty exactly when no non-blank line exists; otherwise its lines are exactly the trimmed non-blank input lines in order, none empty, none with whitespace at either end |
| `Normalisation.NormaliseIdempotent` | src/main.rs:95-99 | normalising normalised text returns it unchanged |
| `Patterns.SplitPath` | src/main.rs:73 | splitting the function path always yields at least one segment |
| `Patterns.JoinSplitPath` | src/main.rs:73 | joining the segments with `::` gives back the path |
| `Patterns.PathSegments` | src/main.rs:73-80 | the segments are the module parts followed by the function name, so the `"main"` fallback is unreachable; a path without `::` has no module parts and is its own function name |
| `Patterns.FirstHeader` | src/main.rs:29-30 | returns the first position at or after the start where the escaped header pattern matches, or none when it matches nowhere |
| `Patterns.ExtractFunctionBody` | src/main.rs:28-34 | the result is empty exactly when the header pattern never matches; otherwise it is the suffix of the content that starts at the first match |
| `Collapse.CloseParams` | src/main.rs:39 | the lazy tail of the function regex finds a `)` on the same line, then optional whitespace and `{`, then the first `}` after it |
| `Collapse.MatchAt` | src/main.rs:39 | a match found at a position starts there and has the regex's shape, and its name, body and whole-match captures are the slices the shape names |
| `Collapse.Matches` | src/main.rs:44 | `captures_iter` yields ordered, non-overlapping matches of that shape, and no match starts before the first one it yields |
| `Collapse.CloseParamsLeast` | src/main.rs:39 | the lazy `(.*?)` takes the first `)` that can end the parameters: when some `)` on the line can, the tail is found at that `)` or an earlier one |
| `Collapse.MatchAtLeast` | src/main.rs:39 | whenever the pattern's shape is present at a position, a match is found there, its `)` is the first one that completes the shape, and a match with the same `)` is exactly that shape |
| `Collapse.MatchesExact` | src/main.rs:44 | `captures_iter` misses nothing: each match yielded is the one found at its start, and no match starts in the stretch before the first, between two neighbours, or after the last |
| `Collapse.CollapseKeepsFirst` | src/main.rs:44-63 | when the first match starts the text and is kept, the in-place replacement begins with that match's text unchanged |
| `Collapse.ExampleMatchList` | src/main.rs:39-44 | on `fn t(fn b(){}fn b(){}` the regex finds exactly `fn t(fn b(){}` and then `fn b(){}` |
| `Collapse.CallerNamesMembers` | src/main.rs:43-52 | a name is in `function_calls` (modelled by `Collapse.CallerNames`) exactly when some match of that name has a body containing `NAME(` or `NAME (` |
| `Collapse.ModifyFunctionBodies` | src/main.rs:37-65 | the two loops compute the specification `Collapse.ModifiedContent`: the caller names (`Collapse.CallerNames`), then one `replace` of the whole match text per match that is neither a caller nor the target (`Collapse.ReplaceEach`) |
| `Collapse.ModifiedContentUnchanged` | src/main.rs:54-64 | when every match is kept, and in particular when the regex finds nothing, the text comes back unchanged |
| `Collapse.ModifiedContentAllCalling` | src/main.rs:43-64 | when every function found is the target or calls it, the text comes back unchanged |
| `Collapse.CollapseBodies` | src/main.rs:54-63 | in-place replacement: every kept match appears verbatim, every other match appears as its placeholder, and the text is unchanged when nothing is collapsed |
| `Collapse.RenderFromPlaces` | src/main.rs:54-63 | in the rendering from a position, match `k` is shown at its start moved by how much the matches before it grew, with the text since the match before sitting verbatim right in front of it |
| `Collapse.RenderFromTail` | src/main.rs:54-63 | the rendering is as long as the text plus the total growth of the matches, and ends with the text after the last match, verbatim |
| `Collapse.CollapseBodiesLayout` | src/main.rs:44-63 | for the in-place replacement: every gap between matches is kept verbatim, match `k` shows (verbatim or as its placeholder) at its start plus the sum, over the matches before it, of how much longer each became, and the text after the last match ends the result |
| `Collapse.ReplaceLeavesCollapsedWhole` | src/main.rs:54-63 | on `fn b(){}fn a(x fn b(){}` with target `z`, both matches are to be collapsed; the as-written replacement of `b` also rewrites the copy inside `a`, after which `a`'s text occurs nowhere, so its placeholder never appears, while the in-place replacement does show it |
| `Collapse.ReplaceRewritesKeptTarget` | src/main.rs:61 | on `fn t(fn b(){}fn b(){}` with target `t`, the as-written replacement rewrites the kept target's text while the in-place replacement keeps it |
| `Classify.RustSourceName` | src/main.rs:90 | a path passes the extension test exactly when its file name is longer than `.rs` and ends with it |
| `Classify.ClassifyFile` | src/main.rs:102-120 | the tier is in {0,1,3,4} with four cases: 0 iff the definition matches (`Patterns.Defines`, src/main.rs:81) and the module check holds (`Classify.ModuleMatches` over `Patterns.DeclaresModule`, src/main.rs:86, 104-105); 3 iff the definition matches and it fails; 1 iff there is no definition but a call (`Patterns.CallsTarget`, src/main.rs:114); 4 otherwise. Only tier 0 has a full body, the normalised text; its summary is `modify_function_bodies` of the raw text as the code computes it, and every other summary is the normalised text |
| `Classify.RustSources` | src/main.rs:89-90 | keeps exactly the walked entries that pass the extension test |
| `Classify.FindFiles` | src/main.rs:72-125 | one record per Rust source, in walk order, with the source's path and a tier in {0,1,3,4} |
| `Classify.RecordsAreSources` | src/main.rs:89-124 | every record belongs to a walked Rust file |
| `Classify.SourcesHaveRecords` | src/main.rs:89-124 | every walked Rust file has a record |
| `Classify.SingleSegmentDefinitionsTierZero` | src/main.rs:73-105 | with a single-segment function path, a file is tier 0 exactly when its normalised text matches the definition pattern |
| `Classify.FullBodiesNormalised` | src/main.rs:107-118 | a record has a full body exactly when it is tier 0, and that body is already normalised |
| `Classify.TierZeroSummaryUnchanged` | src/main.rs:107 | a tier-0 summary is the raw text itself when every function found is the target or calls it, in particular when none is found |
| `Order.StrCmp` | src/main.rs:168 | two strings compare equal exactly when they are equal |
| `Order.StrCmpFlip` | src/main.rs:168 | swapping two strings flips their comparison |
| `Order.ComponentsCmpFlip` | src/main.rs:168 | swapping two component lists flips their comparison |
| `Order.Components` | src/main.rs:168 | a path starts with the root component exactly when it starts with `/`; every later component is `..` or a name |
| `Order.RecordCmpFlip` | src/main.rs:168 | the tuple order `Order.RecordCmp` is total and antisymmetric |
| `Order.RecordCmpEqual` | src/main.rs:168 | two records compare equal exactly when tier, path components, summary and full body agree |
| `Order.RecordCmpTier` | src/main.rs:168 | a record never sorts after one of a higher tier |
| `Order.SortedTiers` | src/main.rs:168 | in a sorted sequence the tiers never decrease |
| `Assemble.DraftCountPermutation` | src/main.rs:170-173 | the draft count (`Assemble.DraftCount`, the sum of `Assemble.Weight` over the tier-0 to tier-2 records) does not depend on the order of the records |
| `Assemble.SinkInto` | src/main.rs:168 | one insertion step leaves the first `i + 1` records in order and the array a permutation of what it was |
| `Assemble.SortRecords` | src/main.rs:168 | the array ends sorted and holds the same records |
| `Assemble.AllFiles` | src/main.rs:161-162 | the records are those found, followed by the manifest record only when the manifest was read |
| `Assemble.ManifestRecord` | src/main.rs:161-165 | given found records that are never tier 2 (which `Classify.FindFiles` ensures), the tier-2 record for the manifest, with no full body, is present exactly when the manifest was read, and it is the only tier-2 record |
| `Assemble.AppendSections` | src/main.rs:177-192 | the record loop appends each record's framed section, in order, to the text so far |
| `Assemble.SectionsAt` | src/main.rs:177-190 | the framed text is the records before `k`, then record `k`'s header, chosen text and footer (`Assemble.Header`, `Assemble.Chosen`, `Assemble.Footer`), then the records after it |
| `Assemble.SummaryModeIgnoresFull` | src/main.rs:187-188 | in summary mode the output does not depend on any full body |
| `Assemble.FitWindow` | src/main.rs:194-197 | the cut text is a prefix of the text, has at most `window` characters, and is the whole text when that fits in `window` bytes |
| `Assemble.AssembleContext` | src/main.rs:154-197 | the sorted records are a sorted permutation of those found plus the manifest. Full mode is chosen exactly when the draft count plus the preamble's byte length is at most `window_size_k * 1024`, so equality selects full bodies. The result is the cut of the preamble, the missing-manifest note when there is one, and every record's framed section in sorted order |

## Left out

- Command-line parsing (src/main.rs:11-25, 129): the function path and the window size are parameters.
- The `rustc --version` subprocess and the OS name (src/main.rs:137-152): the preamble they produce is a string parameter. Its byte length is the prefix size.
- The directory walk and file reads (src/main.rs:38, 89-91, 161):
  - The entries and their text are inputs.
  - Walk errors that `filter_map(Result::ok)` drops are simply absent from the input.
  - `modify_function_bodies` is given the same text that `find_files` read, not a second read.
  - The panics of `expect` on unreadable files are not modelled.
- Printing and the clipboard (src/main.rs:106, 198-226): output only, nothing feeds back.
- Regex metacharacters in a function name or module part: names are matched as literal text.
  - `extract_function_body` escapes its name, so its model is exact.
  - `find_files` does not escape, and a name with metacharacters would change its patterns or panic in `unwrap`.
- Unicode word characters: `\w` and `\b` are modelled by ASCII letters, digits and `_`. `\s` and `trim` use the full Unicode White_Space set.
- Paths as `display()` renders them: a path is its text, on Unix. Prefix components (Windows drive letters) are not modelled.
- `usize` overflow of `window_size_k * 1024` and of the draft sum: integers are unbounded.
- Assemble.SortRecords: proves that the result is sorted and a permutation. It does not prove that it is the exact sequence Rust's stable sort returns. Transitivity of the tuple order is not proved either, so the model does not show that the two can differ only among records that compare equal.
- `extract_function_body` is never called by the program. It is modelled on its own.

## Findings

| source | as written | input that shows it | evidently intended | confidence | as-written member | corrected member |
|---|---|---|---|---|---|---|
| src/main.rs:61 | each collapsed function is replaced with `str::replace` on its whole match text, which rewrites every occurrence of that text, including copies inside functions that are meant to be kept | raw text `fn t(fn b(){}fn b(){}`, target `t`. The matches are `fn t(fn b(){}` (the target, kept) and `fn b(){}` (collapsed). The output's first 13 characters are no longer `fn t(fn b(){}`, because character 10 becomes `.` | replace each collapsed match where the regex found it, so kept functions stay verbatim | not executed; follows from `str::replace` semantics | `Collapse.ReplaceRewritesKeptTarget` | `Collapse.CollapseBodies` |
| src/main.rs:54-63 | the replacements run one after another on the text as it stands, so replacing an earlier match can rewrite a copy of its text inside a later match, and the later match's own replacement then finds nothing | raw text `fn b(){}fn a(x fn b(){}`, target `z`. The matches are `fn b(){}` and `fn a(x fn b(){}`, and neither is kept. Replacing `b` gives `fn b(...) { ... }fn a(x fn b(...) { ... }`, which no longer contains `fn a(x fn b(){}`, so `a` is never cut down and `fn a(...) { ... }` does not appear | cut down every function that neither is the target nor calls it | not executed; follows from `str::replace` semantics | `Collapse.ReplaceLeavesCollapsedWhole` | `Collapse.CollapseBodies` |
