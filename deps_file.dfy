/** The clean-up `parse_direct_dependencies` applies to the saved output of
    `flutter pub deps --json` before decoding it: the lines before the first
    one that starts with `{` (tool chatter) are dropped. */
module DepsFile {
  import opened Common

  predicate StartsWithBrace(line: string) {
    |line| > 0 && line[0] == '{'
  }

  /** Lines 191-195: `first_line` is the index of the first line starting with
      `{`, and the lines from there on are kept. When no line starts with `{`,
      `first_line` is never bound and the slice raises (None here). */
  method TrimBeforeJson(lines: seq<string>) returns (r: Option<seq<string>>)
    ensures r.None? <==> forall n :: 0 <= n < |lines| ==> !StartsWithBrace(lines[n])
    ensures r.Some? ==> exists first :: 0 <= first < |lines| && r.value == lines[first..]
                          && StartsWithBrace(lines[first])
                          && forall n :: 0 <= n < first ==> !StartsWithBrace(lines[n])
  {
    var num := 0;
    while num < |lines|
      invariant 0 <= num <= |lines|
      invariant forall n :: 0 <= n < num ==> !StartsWithBrace(lines[n])
    {
      if StartsWithBrace(lines[num]) {
        return Some(lines[num..]);
      }
      num := num + 1;
    }
    r := None;
  }
}
