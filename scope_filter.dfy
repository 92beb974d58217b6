/** The scope list that `parse_no_dev_command_file` reads out of the text of
    `flutter pub deps --no-dev -s compact`: each line is searched for the
    regular expression `-\s(\S+)\s` and the first capture, if any, is kept. */
module ScopeFilter {
  import opened Common

  /** Python's `str.isspace`, which is what `\s` matches in a `str` pattern:
      the ASCII separators and the Unicode space and separator characters. */
  predicate IsSpace(c: char) {
    var n := c as int;
    (9 <= n <= 13) || (28 <= n <= 32) || n == 0x85 || n == 0xA0 || n == 0x1680
    || (0x2000 <= n <= 0x200A) || n == 0x2028 || n == 0x2029 || n == 0x202F
    || n == 0x205F || n == 0x3000
  }

  // ------------------------------------------------------------ split('\n')

  /** `s.split('\n')`: the pieces between newlines, one more than the number
      of newlines (so the empty text gives one empty line). */
  function SplitLines(s: string): (r: seq<string>)
    ensures |r| >= 1
    ensures forall n :: 0 <= n < |r| ==> '\n' !in r[n]
    decreases |s|
  {
    if s == [] then [""]
    else
      var rest := SplitLines(s[1..]);
      if s[0] == '\n' then [""] + rest else [[s[0]] + rest[0]] + rest[1..]
  }

  /** `'\n'.join(lines)`. */
  function JoinLines(lines: seq<string>): string
    requires |lines| >= 1
    decreases |lines|
  {
    if |lines| == 1 then lines[0] else lines[0] + "\n" + JoinLines(lines[1..])
  }

  /** Splitting loses nothing: joining the lines back gives the text. */
  lemma {:induction false} JoinSplit(s: string)
    ensures JoinLines(SplitLines(s)) == s
    decreases |s|
  {
    if s != [] {
      var rest := SplitLines(s[1..]);
      JoinSplit(s[1..]);
      if s[0] == '\n' {
        assert SplitLines(s)[1..] == rest;
      } else {
        var r := SplitLines(s);
        assert r[0] == [s[0]] + rest[0];
        if |rest| == 1 {
          assert s == [s[0]] + s[1..];
        } else {
          assert r[1..] == rest[1..];
          assert JoinLines(rest) == rest[0] + "\n" + JoinLines(rest[1..]);
          AppendAssoc([s[0]], rest[0], "\n" + JoinLines(rest[1..]));
        }
      }
    }
  }

  /** Splitting the join of newline-free lines gives those lines back. */
  lemma {:induction false} SplitJoin(lines: seq<string>)
    requires |lines| >= 1
    requires forall n :: 0 <= n < |lines| ==> '\n' !in lines[n]
    ensures SplitLines(JoinLines(lines)) == lines
    decreases |lines|, |lines[0]|
  {
    if |lines| == 1 {
      SplitNoNewline(lines[0]);
    } else if lines[0] == [] {
      var s := JoinLines(lines);
      assert s == "\n" + JoinLines(lines[1..]);
      assert s[1..] == JoinLines(lines[1..]);
      SplitJoin(lines[1..]);
    } else {
      var s := JoinLines(lines);
      var first := lines[0];
      var shorter := [first[1..]] + lines[1..];
      assert shorter[1..] == lines[1..];
      assert JoinLines(shorter) == first[1..] + "\n" + JoinLines(lines[1..]);
      AppendAssoc([first[0]], first[1..], "\n" + JoinLines(lines[1..]));
      assert first == [first[0]] + first[1..];
      assert s == [first[0]] + JoinLines(shorter);
      assert s[1..] == JoinLines(shorter);
      assert first[0] != '\n' by { assert first[0] in first; }
      SplitJoin(shorter);
    }
  }

  lemma {:induction false} SplitNoNewline(s: string)
    requires '\n' !in s
    ensures SplitLines(s) == [s]
    decreases |s|
  {
    if s != [] {
      assert s[0] in s;
      assert forall c :: c in s[1..] ==> c in s;
      SplitNoNewline(s[1..]);
      assert s == [s[0]] + s[1..];
    }
  }

  // ---------------------------------------------------- the pattern -\s(\S+)\s

  /** The pattern matches at position `i` and its mandatory trailing `\s` is at
      position `e`: a `-`, a whitespace character, a non-empty run of
      non-whitespace `line[i+2..e]`, then the whitespace character `line[e]`. */
  ghost predicate MatchesAt(line: string, i: int, e: int) {
    0 <= i && i + 2 < e < |line|
    && line[i] == '-' && IsSpace(line[i + 1])
    && (forall m :: i + 2 <= m < e ==> !IsSpace(line[m]))
    && IsSpace(line[e])
  }

  /** End of the maximal run of non-whitespace that starts at `j`. */
  function RunEnd(line: string, j: nat): (e: nat)
    requires j <= |line|
    ensures j <= e <= |line|
    ensures forall m :: j <= m < e ==> !IsSpace(line[m])
    ensures e < |line| ==> IsSpace(line[e])
    decreases |line| - j
  {
    if j == |line| || IsSpace(line[j]) then j else RunEnd(line, j + 1)
  }

  /** The greedy `\S+` leaves no choice: at a given start the pattern can close
      only at the end of the run. */
  lemma MatchEndIsRunEnd(line: string, i: nat, e: int)
    requires i + 2 <= |line|
    requires MatchesAt(line, i, e)
    ensures e == RunEnd(line, i + 2)
  {
  }

  /** Leftmost-match search from position `i` on, as `re.findall` performs it:
      the capture at the first start position at which the pattern matches. */
  function ScanFrom(line: string, i: nat): Option<string>
    requires i <= |line|
    decreases |line| - i
  {
    if i + 2 >= |line| then None
    else
      var e := RunEnd(line, i + 2);
      if line[i] == '-' && IsSpace(line[i + 1]) && i + 2 < e < |line| then Some(line[i + 2..e])
      else ScanFrom(line, i + 1)
  }

  /** The scan finds nothing exactly when the pattern matches at no start from
      `i` on, and otherwise yields the capture of the leftmost match. */
  lemma {:induction false} ScanFromSpec(line: string, i: nat)
    requires i <= |line|
    ensures ScanFrom(line, i).None? ==> forall i', e :: i <= i' ==> !MatchesAt(line, i', e)
    ensures ScanFrom(line, i).Some? ==>
              exists i', e :: i <= i' && MatchesAt(line, i', e) && ScanFrom(line, i).value == line[i' + 2..e]
                              && forall i'', e' :: i <= i'' < i' ==> !MatchesAt(line, i'', e')
    decreases |line| - i
  {
    if i + 2 < |line| {
      var e := RunEnd(line, i + 2);
      if line[i] == '-' && IsSpace(line[i + 1]) && i + 2 < e < |line| {
        assert MatchesAt(line, i, e);
      } else {
        NoMatchAt(line, i);
        ScanFromSpec(line, i + 1);
      }
    }
  }

  lemma NoMatchAt(line: string, i: nat)
    requires i + 2 < |line|
    requires var e := RunEnd(line, i + 2); !(line[i] == '-' && IsSpace(line[i + 1]) && i + 2 < e < |line|)
    ensures forall e :: !MatchesAt(line, i, e)
  {
    forall e | MatchesAt(line, i, e) ensures false {
      MatchEndIsRunEnd(line, i, e);
    }
  }

  /** `re.findall(r'\-\s(\S+)\s', line)[0]` when the list is non-empty. */
  function FirstCapture(line: string): Option<string> {
    ScanFrom(line, 0)
  }

  /** What one line adds to the scope list: its first capture, or nothing. */
  function LineCapture(line: string): (r: seq<string>)
    ensures forall c :: c in r <==> FirstCapture(line) == Some(c)
  {
    match FirstCapture(line)
    case Some(c) => [c]
    case None => []
  }

  /** The captures of the lines, in line order, at most one per line. */
  function Captures(lines: seq<string>): (r: seq<string>)
    ensures |r| <= |lines|
    decreases |lines|
  {
    if lines == [] then [] else Captures(lines[..|lines| - 1]) + LineCapture(lines[|lines| - 1])
  }

  /** Exactly the first captures of the lines are collected. */
  lemma CapturesMembers(lines: seq<string>)
    ensures forall c :: c in Captures(lines) <==> exists n :: 0 <= n < |lines| && FirstCapture(lines[n]) == Some(c)
  {
    forall c ensures c in Captures(lines) <==> exists n :: 0 <= n < |lines| && FirstCapture(lines[n]) == Some(c) {
      CapturedAt(lines, c);
    }
  }

  lemma {:induction false} CapturedAt(lines: seq<string>, c: string)
    ensures c in Captures(lines) <==> exists n :: 0 <= n < |lines| && FirstCapture(lines[n]) == Some(c)
    decreases |lines|
  {
    if lines != [] {
      var init, last := lines[..|lines| - 1], lines[|lines| - 1];
      CapturedAt(init, c);
      CapturedSnoc(lines, c);
      assert c in Captures(lines) <==> c in Captures(init) || c in LineCapture(last);
    }
  }

  lemma CapturedSnoc(lines: seq<string>, c: string)
    requires lines != []
    ensures var init, last := lines[..|lines| - 1], lines[|lines| - 1];
            (exists n :: 0 <= n < |lines| && FirstCapture(lines[n]) == Some(c)) <==>
            (exists n :: 0 <= n < |init| && FirstCapture(init[n]) == Some(c)) || FirstCapture(last) == Some(c)
  {
    var init := lines[..|lines| - 1];
    assert forall n :: 0 <= n < |init| ==> init[n] == lines[n];
  }

  // --------------------------------------------------------- list(set(...))

  /** The distinct elements of `xs`. Python's `list(set(xs))` gives them in an
      order of its own; this definition keeps the first occurrences. */
  function Dedup(xs: seq<string>): (r: seq<string>)
    ensures NoDup(r)
    ensures forall x :: x in r <==> x in xs
    decreases |xs|
  {
    if xs == [] then []
    else
      var d := Dedup(xs[..|xs| - 1]);
      var last := xs[|xs| - 1];
      assert forall x :: x in xs <==> x in xs[..|xs| - 1] || x == last;
      if last in d then d else d + [last]
  }
}
