/**
 * overrides/sort_overrides.py: sorts the override definitions between the
 * `#### begin auto sort` and `#### end auto sort` marker lines of a Nix
 * file. The lines of the region are grouped into blocks, each starting at
 * a header line (`        name = ` or `        # name = `); the blocks are
 * right-stripped, sorted and joined by blank lines. Reading and writing
 * the files is left to the caller: the model maps file content to file
 * content.
 */
module SortOverrides {

  import opened Wrappers
  import opened Text
  import opened Lex
  import Seqs

  const BEGIN: string := "#### begin auto sort"
  const END: string := "#### end auto sort"

  /** The `ValueError`s and the `IndexError` the script can raise. */
  datatype SortError = BeginNotFound | EndNotFound | EmptyRegion

  /** The index of the first line that contains `pat`, if there is one. */
  function FindFirst(lines: seq<string>, pat: string): (r: Option<nat>)
    ensures r.Some? ==> r.value < |lines| && Contains(lines[r.value], pat)
    ensures r.Some? ==> forall j :: 0 <= j < r.value ==> !Contains(lines[j], pat)
    ensures r.None? ==> forall j :: 0 <= j < |lines| ==> !Contains(lines[j], pat)
  {
    if |lines| == 0 then None
    else if Contains(lines[0], pat) then Some(0)
    else match FindFirst(lines[1..], pat)
      case None => None
      case Some(i) => Some(i + 1)
  }

  // ----- the header regex `^        (# )?([a-zA-Z0-9-]+|$) = ` -----

  predicate IsNameChar(c: char) {
    ('a' <= c <= 'z') || ('A' <= c <= 'Z') || ('0' <= c <= '9') || c == '-'
  }

  /** The length of the longest prefix of `s` made of name characters. */
  function NameRun(s: string): (n: nat)
    ensures n <= |s|
    ensures forall i :: 0 <= i < n ==> IsNameChar(s[i])
    ensures n < |s| ==> !IsNameChar(s[n])
  {
    if |s| > 0 && IsNameChar(s[0]) then 1 + NameRun(s[1..]) else 0
  }

  /** Eight spaces. */
  predicate Indented(line: string) {
    |line| >= 8 && forall i :: 0 <= i < 8 ==> line[i] == ' '
  }

  /** `# `. */
  predicate CommentMark(s: string) {
    |s| >= 2 && s[0] == '#' && s[1] == ' '
  }

  /** ` = `. */
  predicate AssignMark(s: string) {
    |s| >= 3 && s[0] == ' ' && s[1] == '=' && s[2] == ' '
  }

  /** `([a-zA-Z0-9-]+|$) = ` at the start of `s`; the `$` branch can never be followed by ` = `. */
  predicate NameAssign(s: string) {
    NameRun(s) >= 1 && AssignMark(s[NameRun(s)..])
  }

  /** `re.match` of the header pattern against one line. */
  predicate IsHeader(line: string) {
    Indented(line) && (NameAssign(line[8..]) || (CommentMark(line[8..]) && NameAssign(line[10..])))
  }

  /**
   * The regex read with its backtracking: eight spaces, `# ` when `k` is 2,
   * some `n >= 1` name characters, then ` = `.
   */
  predicate HeaderShape(line: string, k: nat, n: nat) {
    && (k == 0 || k == 2)
    && 1 <= n && 8 + k + n <= |line|
    && Indented(line)
    && (k == 2 ==> CommentMark(line[8..]))
    && (forall i :: 8 + k <= i < 8 + k + n ==> IsNameChar(line[i]))
    && AssignMark(line[8 + k + n..])
  }

  lemma {:induction false} NameRunExact(s: string, n: nat)
    requires n < |s| && !IsNameChar(s[n])
    requires forall i :: 0 <= i < n ==> IsNameChar(s[i])
    ensures NameRun(s) == n
  {
    if n > 0 {
      NameRunExact(s[1..], n - 1);
    }
  }

  /** The name and ` = ` after the eight spaces and the optional `# `, as `NameAssign` reads them. */
  lemma NameAssignShape(line: string, k: nat)
    requires (k == 0 || k == 2) && 8 + k <= |line| && Indented(line)
    requires k == 2 ==> CommentMark(line[8..])
    requires NameAssign(line[8 + k..])
    ensures HeaderShape(line, k, NameRun(line[8 + k..]))
  {
    var s := line[8 + k..];
    var n := NameRun(s);
    assert s[n..] == line[8 + k + n..];
    forall i | 8 + k <= i < 8 + k + n ensures IsNameChar(line[i]) {
      assert line[i] == s[i - 8 - k];
    }
  }

  lemma ShapeNameAssign(line: string, k: nat, n: nat)
    requires HeaderShape(line, k, n)
    ensures NameAssign(line[8 + k..])
  {
    var s := line[8 + k..];
    assert s[n..] == line[8 + k + n..];
    assert s[n] == line[8 + k + n..][0];
    forall i | 0 <= i < n ensures IsNameChar(s[i]) {
      assert s[i] == line[8 + k + i];
    }
    NameRunExact(s, n);
  }

  /** A line starts a new block exactly when some reading of the regex matches it. */
  lemma HeaderIffShape(line: string)
    ensures IsHeader(line) <==> exists k, n :: HeaderShape(line, k, n)
  {
    if IsHeader(line) {
      if NameAssign(line[8..]) {
        NameAssignShape(line, 0);
      } else {
        NameAssignShape(line, 2);
      }
    }
    if k, n :| HeaderShape(line, k, n) {
      ShapeNameAssign(line, k, n);
    }
  }

  // ----- blocks -----

  /**
   * The block loop as written, for a header test `starts`: a header line
   * closes the block being built (when it is not empty) and opens a new
   * one; any other line is added to the current block. Each line enters its
   * block followed by a newline.
   */
  function Scan(lines: seq<string>, blocks: seq<string>, block: string, starts: string -> bool): seq<string>
    decreases |lines|
  {
    if |lines| == 0 then (if block != "" then blocks + [block] else blocks)
    else if starts(lines[0]) then
      Scan(lines[1..], if block != "" then blocks + [block] else blocks, lines[0] + "\n", starts)
    else
      Scan(lines[1..], blocks, block + lines[0] + "\n", starts)
  }

  /** The blocks of a region, as strings, cut at the lines the header regex matches. */
  function Blocks(region: seq<string>): seq<string> {
    Scan(region, [], "", IsHeader)
  }

  /** The text of a block made of `lines`: each line followed by a newline. */
  function BlockText(lines: seq<string>): (r: string)
    ensures |lines| > 0 ==> |r| > 0
  {
    if |lines| == 0 then "" else lines[0] + "\n" + BlockText(lines[1..])
  }

  lemma {:induction false} BlockTextAppend(a: seq<string>, b: seq<string>)
    ensures BlockText(a + b) == BlockText(a) + BlockText(b)
  {
    if |a| == 0 {
      assert a + b == b;
    } else {
      assert (a + b)[1..] == a[1..] + b;
      BlockTextAppend(a[1..], b);
    }
  }

  function Texts(groups: seq<seq<string>>): (r: seq<string>)
    ensures |r| == |groups|
    ensures forall i :: 0 <= i < |r| ==> r[i] == BlockText(groups[i])
  {
    seq(|groups|, i requires 0 <= i < |groups| => BlockText(groups[i]))
  }

  /** The same loop over lists of lines instead of strings. */
  function GroupScan(lines: seq<string>, groups: seq<seq<string>>, cur: seq<string>, starts: string -> bool): seq<seq<string>>
    decreases |lines|
  {
    if |lines| == 0 then (if cur != [] then groups + [cur] else groups)
    else if starts(lines[0]) then
      GroupScan(lines[1..], if cur != [] then groups + [cur] else groups, [lines[0]], starts)
    else
      GroupScan(lines[1..], groups, cur + [lines[0]], starts)
  }

  /** The region's blocks as groups of lines. */
  function Groups(region: seq<string>): seq<seq<string>> {
    GroupScan(region, [], [], IsHeader)
  }

  /** The string loop builds the texts of the line groups. */
  lemma {:induction false} ScanTexts(lines: seq<string>, groups: seq<seq<string>>, cur: seq<string>, starts: string -> bool)
    ensures Scan(lines, Texts(groups), BlockText(cur), starts) == Texts(GroupScan(lines, groups, cur, starts))
    decreases |lines|
  {
    assert BlockText(cur) != "" <==> cur != [];
    assert Texts(groups + [cur]) == Texts(groups) + [BlockText(cur)];
    if |lines| > 0 {
      var l := lines[0];
      if starts(l) {
        var next := if cur != [] then groups + [cur] else groups;
        assert BlockText([l]) == l + "\n" by {
          assert [l][1..] == [];
        }
        ScanTexts(lines[1..], next, [l], starts);
      } else {
        BlockTextAppend(cur, [l]);
        assert BlockText([l]) == l + "\n" by {
          assert [l][1..] == [];
        }
        assert BlockText(cur) + l + "\n" == BlockText(cur + [l]);
        ScanTexts(lines[1..], groups, cur + [l], starts);
      }
    }
  }

  lemma BlocksAreTexts(region: seq<string>)
    ensures Blocks(region) == Texts(Groups(region))
  {
    assert Texts([]) == [];
    ScanTexts(region, [], [], IsHeader);
  }

  /** No line after the first of `lines` is a header. */
  predicate NoInnerHeader(lines: seq<string>, starts: string -> bool) {
    forall j :: 1 <= j < |lines| ==> !starts(lines[j])
  }

  /**
   * Groups cut at headers: none is empty, every group after the first
   * starts with a header, and no header sits inside a group.
   */
  predicate WellFormed(groups: seq<seq<string>>, starts: string -> bool) {
    && (forall i :: 0 <= i < |groups| ==> |groups[i]| > 0 && NoInnerHeader(groups[i], starts))
    && (forall i :: 1 <= i < |groups| ==> starts(groups[i][0]))
  }

  /** `groups` cut `region` at its headers. */
  predicate IsPartition(region: seq<string>, groups: seq<seq<string>>, starts: string -> bool) {
    Seqs.Flatten(groups) == region && WellFormed(groups, starts)
  }

  lemma AddGroup(groups: seq<seq<string>>, cur: seq<string>, starts: string -> bool)
    requires WellFormed(groups, starts) && |cur| > 0 && NoInnerHeader(cur, starts)
    requires |groups| > 0 ==> starts(cur[0])
    ensures WellFormed(groups + [cur], starts)
    ensures Seqs.Flatten(groups + [cur]) == Seqs.Flatten(groups) + cur
  {
    FlattenOne(groups, cur);
    var g := groups + [cur];
    forall i | 0 <= i < |g| ensures |g[i]| > 0 && NoInnerHeader(g[i], starts) {
      if i < |groups| {
        assert g[i] == groups[i];
        assert |groups[i]| > 0 && NoInnerHeader(groups[i], starts);
      } else {
        assert g[i] == cur;
      }
    }
    forall i | 1 <= i < |g| ensures starts(g[i][0]) {
      if i < |groups| {
        assert g[i] == groups[i];
        assert starts(groups[i][0]);
      } else {
        assert g[i] == cur;
      }
    }
  }

  lemma FlattenOne(groups: seq<seq<string>>, cur: seq<string>)
    ensures Seqs.Flatten(groups + [cur]) == Seqs.Flatten(groups) + cur
  {
    Seqs.FlattenAppend(groups, [cur]);
    assert [cur][1..] == [];
  }

  lemma ExtendGroup(cur: seq<string>, l: string, starts: string -> bool)
    requires NoInnerHeader(cur, starts) && !starts(l)
    ensures NoInnerHeader(cur + [l], starts)
  {
    var next := cur + [l];
    forall j | 1 <= j < |next| ensures !starts(next[j]) {
      if j < |cur| {
        assert next[j] == cur[j];
      }
    }
  }

  lemma {:induction false} GroupScanPartition(lines: seq<string>, groups: seq<seq<string>>, cur: seq<string>, starts: string -> bool)
    requires WellFormed(groups, starts) && NoInnerHeader(cur, starts)
    requires cur == [] ==> groups == []
    requires |groups| > 0 ==> starts(cur[0])
    ensures WellFormed(GroupScan(lines, groups, cur, starts), starts)
    ensures Seqs.Flatten(GroupScan(lines, groups, cur, starts)) == Seqs.Flatten(groups) + cur + lines
    decreases |lines|
  {
    if |lines| == 0 {
      if cur != [] {
        AddGroup(groups, cur, starts);
      }
    } else {
      var l, rest := lines[0], lines[1..];
      assert Seqs.Flatten(groups) + cur + lines == Seqs.Flatten(groups) + cur + [l] + rest;
      if starts(l) && cur != [] {
        AddGroup(groups, cur, starts);
        GroupScanPartition(rest, groups + [cur], [l], starts);
      } else if starts(l) {
        GroupScanPartition(rest, groups, [l], starts);
      } else {
        ExtendGroup(cur, l, starts);
        GroupScanPartition(rest, groups, cur + [l], starts);
      }
    }
  }

  /** The blocks cut the region at its header lines and nowhere else. */
  lemma GroupsPartition(region: seq<string>)
    ensures IsPartition(region, Groups(region), IsHeader)
  {
    GroupScanPartition(region, [], [], IsHeader);
  }

  lemma WellFormedTail(groups: seq<seq<string>>, starts: string -> bool)
    requires WellFormed(groups, starts) && |groups| > 0
    ensures WellFormed(groups[1..], starts)
  {
    var t := groups[1..];
    forall i | 0 <= i < |t| ensures |t[i]| > 0 && NoInnerHeader(t[i], starts) {
      assert t[i] == groups[i + 1];
    }
    forall i | 1 <= i < |t| ensures starts(t[i][0]) {
      assert t[i] == groups[i + 1];
    }
  }

  /** A partition of a non-empty region: its first group is a prefix, and the next group begins right after it. */
  lemma FirstGroup(region: seq<string>, groups: seq<seq<string>>, starts: string -> bool)
    requires IsPartition(region, groups, starts) && |groups| > 0
    ensures |groups[0]| <= |region| && region[..|groups[0]|] == groups[0]
    ensures Seqs.Flatten(groups[1..]) == region[|groups[0]|..]
    ensures |groups[0]| < |region| ==> |groups| > 1 && starts(region[|groups[0]|])
  {
    var n := |groups[0]|;
    var rest := Seqs.Flatten(groups[1..]);
    assert region == groups[0] + rest;
    assert region[..n] == groups[0] && region[n..] == rest;
    if n < |region| {
      assert rest == groups[1] + Seqs.Flatten(groups[2..]) by {
        assert groups[1..][1..] == groups[2..];
      }
      assert starts(groups[1][0]);
      assert region[n] == rest[0] == groups[1][0];
    }
  }

  /** No partition has a longer first group than another: a header ends it. */
  lemma FirstGroupNotShorter(region: seq<string>, g: seq<seq<string>>, h: seq<seq<string>>, starts: string -> bool)
    requires IsPartition(region, g, starts) && IsPartition(region, h, starts)
    requires |g| > 0 && |h| > 0
    ensures |g[0]| >= |h[0]|
  {
    FirstGroup(region, g, starts);
    FirstGroup(region, h, starts);
  }

  /** The cut of a region at its headers is unique. */
  lemma {:induction false} PartitionUnique(region: seq<string>, g: seq<seq<string>>, h: seq<seq<string>>, starts: string -> bool)
    requires IsPartition(region, g, starts) && IsPartition(region, h, starts)
    ensures g == h
    decreases |region|
  {
    if |g| == 0 || |h| == 0 {
      if |g| > 0 {
        FirstGroup(region, g, starts);
      }
      if |h| > 0 {
        FirstGroup(region, h, starts);
      }
    } else {
      FirstGroupNotShorter(region, g, h, starts);
      FirstGroupNotShorter(region, h, g, starts);
      FirstGroup(region, g, starts);
      FirstGroup(region, h, starts);
      var n := |g[0]|;
      WellFormedTail(g, starts);
      WellFormedTail(h, starts);
      PartitionUnique(region[n..], g[1..], h[1..], starts);
      assert g == [g[0]] + g[1..] && h == [h[0]] + h[1..];
    }
  }

  /** The script's blocks are the only cut of the region at its header lines. */
  lemma GroupsAreThePartition(region: seq<string>, groups: seq<seq<string>>)
    requires IsPartition(region, groups, IsHeader)
    ensures Groups(region) == groups
  {
    GroupsPartition(region);
    PartitionUnique(region, Groups(region), groups, IsHeader);
  }

  /** Concatenating the blocks gives back every line of the region followed by a newline. */
  lemma {:induction false} BlocksConcat(groups: seq<seq<string>>)
    ensures Seqs.Flatten(Texts(groups)) == BlockText(Seqs.Flatten(groups))
  {
    if |groups| > 0 {
      BlocksConcat(groups[1..]);
      assert Texts(groups)[1..] == Texts(groups[1..]);
      BlockTextAppend(groups[0], Seqs.Flatten(groups[1..]));
    }
  }

  lemma BlocksReproduceRegion(region: seq<string>)
    ensures Seqs.Flatten(Blocks(region)) == BlockText(region)
  {
    BlocksAreTexts(region);
    GroupsPartition(region);
    BlocksConcat(Groups(region));
  }

  // ----- sorting and the whole file -----

  /** `[x.rstrip() for x in blocks]`. */
  function Stripped(blocks: seq<string>): (r: seq<string>)
    ensures |r| == |blocks|
    ensures forall i :: 0 <= i < |r| ==> r[i] == RStrip(blocks[i])
  {
    seq(|blocks|, i requires 0 <= i < |blocks| => RStrip(blocks[i]))
  }

  /** `sorted(blocks)` after stripping: the same blocks, as many as before, in ascending order. */
  function SortedBlocks(region: seq<string>): (r: seq<string>)
    ensures Sorted(r)
    ensures multiset(r) == multiset(Stripped(Blocks(region)))
    ensures |r| == |Blocks(region)|
  {
    var r := SortStrings(Stripped(Blocks(region)));
    assert |r| == |multiset(r)|;
    r
  }

  /** Any ascending arrangement of the stripped blocks is the one the script writes. */
  lemma SortedBlocksUnique(region: seq<string>, arranged: seq<string>)
    requires Sorted(arranged) && multiset(arranged) == multiset(Stripped(Blocks(region)))
    ensures arranged == SortedBlocks(region)
  {
    SortedPermutationsEqual(arranged, SortedBlocks(region));
  }

  /** The text that replaces the region: the sorted blocks separated by blank lines. */
  function SortedRegion(region: seq<string>): string {
    Join(SortedBlocks(region), "\n\n")
  }

  /** `sort_nix_definitions` from the file's content to the content it writes. */
  function SortNixDefinitions(content: string): (r: Result<string, SortError>)
    ensures r.Ok? <==> HasRegion(Split(content, '\n'))
  {
    SortLines(Split(content, '\n'))
  }

  /**
   * The first begin marker is followed, at least two lines later, by the
   * first end marker: the lines between them are the region to sort.
   */
  ghost predicate HasRegion(lines: seq<string>) {
    exists b, e :: IsFirst(lines, BEGIN, b) && IsFirst(lines, END, e) && b + 1 < e
  }

  /** The script once the content is split into lines. */
  function SortLines(lines: seq<string>): (r: Result<string, SortError>)
    ensures r.Ok? <==> HasRegion(lines)
  {
    match FindFirst(lines, BEGIN)
      case None => Err(BeginNotFound)
      case Some(b) =>
        match FindFirst(lines, END)
          case None => Err(EndNotFound)
          case Some(stop) =>
            var start := b + 1;
            assert IsFirst(lines, BEGIN, b) && IsFirst(lines, END, stop);
            if stop <= start then Err(EmptyRegion)
            else Ok(Join(lines[..start] + [SortedRegion(lines[start..stop])] + lines[stop..], "\n"))
  }

  /** Line `i` is the first one containing `pat`. */
  predicate IsFirst(lines: seq<string>, pat: string, i: nat) {
    i < |lines| && Contains(lines[i], pat) && forall j :: 0 <= j < i ==> !Contains(lines[j], pat)
  }

  lemma FindFirstIsFirst(lines: seq<string>, pat: string, i: nat)
    requires IsFirst(lines, pat, i)
    ensures FindFirst(lines, pat) == Some(i)
  {
  }

  /** "begin not found" exactly when no line contains the begin marker. */
  lemma SortFailsWithoutBegin(lines: seq<string>)
    ensures SortLines(lines) == Err(BeginNotFound) <==> forall i :: 0 <= i < |lines| ==> !Contains(lines[i], BEGIN)
  {
  }

  /** "end not found" exactly when a line contains the begin marker and none the end marker. */
  lemma SortFailsWithoutEnd(lines: seq<string>)
    ensures SortLines(lines) == Err(EndNotFound)
      <==> (exists i :: 0 <= i < |lines| && Contains(lines[i], BEGIN))
           && (forall i :: 0 <= i < |lines| ==> !Contains(lines[i], END))
  {
    if i :| 0 <= i < |lines| && Contains(lines[i], BEGIN) {
      assert FindFirst(lines, BEGIN).Some?;
    }
  }

  /**
   * `lines_to_sort[0]` fails exactly when both markers are found and no line
   * lies strictly between the first of each.
   */
  lemma SortFailsOnEmptyRegion(lines: seq<string>)
    ensures SortLines(lines) == Err(EmptyRegion)
      <==> exists b, e :: IsFirst(lines, BEGIN, b) && IsFirst(lines, END, e) && e <= b + 1
  {
    if b, e :| IsFirst(lines, BEGIN, b) && IsFirst(lines, END, e) && e <= b + 1 {
      FindFirstIsFirst(lines, BEGIN, b);
      FindFirstIsFirst(lines, END, e);
    }
    var fb, fe := FindFirst(lines, BEGIN), FindFirst(lines, END);
    if fb.Some? && fe.Some? {
      assert IsFirst(lines, BEGIN, fb.value) && IsFirst(lines, END, fe.value);
    }
  }

  /**
   * On success the output, read back as lines, is the lines up to and
   * including the first begin marker, the lines of the sorted region, and
   * the lines from the first end marker on.
   */
  lemma SortKeepsOutside(content: string, b: nat, e: nat)
    requires IsFirst(Split(content, '\n'), BEGIN, b) && IsFirst(Split(content, '\n'), END, e)
    requires b + 1 < e
    ensures SortNixDefinitions(content).Ok?
    ensures var lines := Split(content, '\n');
      Split(SortNixDefinitions(content).value, '\n')
      == lines[..b + 1] + Split(SortedRegion(lines[b + 1..e]), '\n') + lines[e..]
  {
    var lines := Split(content, '\n');
    var middle := SortedRegion(lines[b + 1..e]);
    SortLinesSucceeds(lines, b, e);
    PiecesOfSlices(lines, b + 1, e, '\n');
    KeepsSurroundingPieces(lines[..b + 1], middle, lines[e..], '\n');
  }

  lemma SortLinesSucceeds(lines: seq<string>, b: nat, e: nat)
    requires IsFirst(lines, BEGIN, b) && IsFirst(lines, END, e) && b + 1 < e
    ensures SortLines(lines) == Ok(Join(lines[..b + 1] + [SortedRegion(lines[b + 1..e])] + lines[e..], "\n"))
  {
    FindFirstIsFirst(lines, BEGIN, b);
    FindFirstIsFirst(lines, END, e);
  }

  lemma PiecesOfSlices(xs: seq<string>, i: nat, j: nat, sep: char)
    requires i <= j <= |xs|
    requires forall k :: 0 <= k < |xs| ==> sep !in xs[k]
    ensures forall k :: 0 <= k < |xs[..i]| ==> sep !in xs[..i][k]
    ensures forall k :: 0 <= k < |xs[j..]| ==> sep !in xs[j..][k]
  {
    forall k | 0 <= k < |xs[j..]| ensures sep !in xs[j..][k] {
      assert xs[j..][k] == xs[j + k];
    }
  }
}
