/** Two readers of one growing journal: analyze_string_read (analyze.c:1293-1475) and the writer
    thread_writev (analyze.c:1515-1585). */
module JournalStream {
  import opened JournalText
  import opened JournalOps
  import opened JournalGroups
  import opened Wrappers

  predicate GoodGroups(groups: seq<FileGroup>) { forall i :: 0 <= i < |groups| ==> GoodGroup(groups[i]) }

  /** All groups, one after the other. */
  function Text(groups: seq<FileGroup>): string
    requires GoodGroups(groups)
  {
    if groups == [] then "" else Text(groups[..|groups| - 1]) + GroupText(groups[|groups| - 1])
  }

  lemma {:induction false} TextSplit(groups: seq<FileGroup>, n: nat) returns (after: string)
    requires GoodGroups(groups) && n < |groups|
    requires GoodGroups(groups[..n]) && GoodGroups(groups[..n + 1]) && GoodGroup(groups[n])
    ensures Text(groups) == Text(groups[..n]) + (GroupText(groups[n]) + after)
    ensures Text(groups[..n + 1]) == Text(groups[..n]) + GroupText(groups[n])
  {
    hide GroupText;
    var last := |groups| - 1;
    assert groups[..n + 1][..n] == groups[..n];
    if n == last {
      after := "";
      assert groups[..n + 1] == groups;
      assert GroupText(groups[n]) + "" == GroupText(groups[n]);
    } else {
      var front := groups[..last];
      assert front[..n] == groups[..n] && front[..n + 1] == groups[..n + 1] && front[n] == groups[n];
      after := TextSplit(front, n);
      after := after + GroupText(groups[last]);
      assert Text(groups) == Text(front[..n]) + (GroupText(front[n]) + after);
    }
  }

  lemma {:induction false} TextPrefix(groups: seq<FileGroup>, n: nat)
    requires GoodGroups(groups)
    requires n <= |groups|
    ensures |Text(groups[..n])| <= |Text(groups)|
    ensures |Text(groups[..n])| == |Text(groups)| ==> n == |groups|
  {
    hide GroupText;
    if n < |groups| {
      var front := groups[..|groups| - 1];
      assert front[..n] == groups[..n];
      assert Text(groups) == Text(front) + GroupText(groups[|groups| - 1]);
      TextPrefix(front, n);
    } else {
      assert groups[..n] == groups;
    }
  }

  /** Operations without a line do not show in the text. */
  lemma {:induction false} SkipUnknown(cls: int, ops: seq<Op>, g: int, c: int, n: nat) returns (left: seq<Op>)
    requires GoodOps(cls, ops)
    ensures GoodOps(cls, left) && |left| <= |ops|
    ensures OpsText(cls, left, g, c) == OpsText(cls, ops, g, c) && OpsAsRead(cls, left, n) == OpsAsRead(cls, ops, n)
    ensures left == [] || Written(cls, left[0].num).Some?
  {
    if ops == [] || Written(cls, ops[0].num).Some? {
      left := ops;
    } else {
      hide Written;
      left := SkipUnknown(cls, ops[1..], g, c, n);
      assert OpsText(cls, ops, g, c) == OpsText(cls, ops[1..], g, c);
    }
  }

  lemma OpsStep(cls: int, ops: seq<Op>, g: int, c: int, n: nat, after: string)
    requires GoodOps(cls, ops) && ops != [] && Written(cls, ops[0].num).Some?
    ensures GoodOps(cls, ops[1..]) && WellFormed(cls, ops[0])
    ensures OpsText(cls, ops, g, c) + after == OpLine(cls, ops[0], g, c).value + "\n" + (OpsText(cls, ops[1..], g, c) + after)
    ensures OpsAsRead(cls, ops, n) == [OpAsRead(cls, ops[0], n)] + OpsAsRead(cls, ops[1..], n + 1)
  {
    assert WellFormed(cls, ops[0]);
    hide Written;
    hide OpLine;
    hide WellFormed;
  }

  /** At an operation: its line, what it is read as, and the rest. */
  lemma OpHere(text: string, pos: nat, cls: int, left: seq<Op>, g: int, c: int, n: nat, frame: string)
    requires GoodOps(cls, left) && left != [] && Written(cls, left[0].num).Some? && pos <= |text|
    requires text[pos..] == OpsText(cls, left, g, c) + frame
    ensures Getline(text, pos).Some? && GoodOps(cls, left[1..]) && WellFormed(cls, left[0])
    ensures var line := Getline(text, pos).value;
            && !StartsWith(line, "**********") && ReadOp(line, cls, n) == Some(OpAsRead(cls, left[0], n))
            && pos < pos + |line| <= |text| && text[pos + |line|..] == OpsText(cls, left[1..], g, c) + frame
    ensures OpsAsRead(cls, left, n) == [OpAsRead(cls, left[0], n)] + OpsAsRead(cls, left[1..], n + 1)
  {
    hide *;
    OpsStep(cls, left, g, c, n, frame);
    OpLineFree(cls, left[0], g, c);
    OpRoundTrip(cls, left[0], g, c, n);
    GetlineFirst(text, pos, OpLine(cls, left[0], g, c).value, OpsText(cls, left[1..], g, c) + frame);
    NoFrame(OpLine(cls, left[0], g, c).value);
  }

  /** Behind the last operation: the frame. */
  lemma FrameHere(text: string, pos: nat, cls: int, g: int, c: int, n: nat, after: string)
    requires pos <= |text| && text[pos..] == OpsText(cls, [], g, c) + (ListLine(c) + "\n" + after)
    ensures Getline(text, pos).Some?
    ensures var line := Getline(text, pos).value;
            && StartsWith(line, "**********") && pos < pos + |line| <= |text| && text[pos + |line|..] == after
    ensures OpsAsRead(cls, [], n) == []
  {
    hide *;
    NoOps(cls, g, c, n);
    ListFrame(c);
    assert text[pos..] == ListLine(c) + "\n" + after;
    GetlineFirst(text, pos, ListLine(c), after);
  }

  /** The lines up to the frame of the list, analyze.c:1383-1429; returns past the frame. */
  method ReadOps(text: string, pos0: nat, cls: int, ghost ops: seq<Op>, ghost g: int, ghost c: int, ghost after: string)
      returns (read: seq<Op>, pos: nat)
    requires GoodOps(cls, ops) && pos0 <= |text|
    requires text[pos0..] == OpsText(cls, ops, g, c) + (ListLine(c) + "\n" + after)
    ensures read == OpsAsRead(cls, ops, 0)
    ensures pos0 < pos <= |text| && text[pos..] == after
  {
    hide *;
    pos := pos0;
    read := [];
    ghost var left := SkipUnknown(cls, ops, g, c, 0);
    ghost var frame := ListLine(c) + "\n" + after;
    while true
      invariant GoodOps(cls, left) && (left == [] || Written(cls, left[0].num).Some?)
      invariant pos0 <= pos <= |text| && text[pos..] == OpsText(cls, left, g, c) + frame
      invariant read + OpsAsRead(cls, left, |read|) == OpsAsRead(cls, ops, 0)
      decreases |text| - pos
    {
      if left == [] {
        FrameHere(text, pos, cls, g, c, |read|, after);
      } else {
        OpHere(text, pos, cls, left, g, c, |read|, frame);
      }
      var line := Getline(text, pos).value;
      pos := pos + |line|;
      if StartsWith(line, "**********") {
        return;
      }
      var op := CutStringOperation(line, cls, |read|);
      read := read + [op.value];
      left := SkipUnknown(cls, left[1..], g, c, |read|);
    }
  }

  lemma NoOps(cls: int, g: int, c: int, n: nat)
    ensures OpsText(cls, [], g, c) == "" && OpsAsRead(cls, [], n) == []
  {
  }

  lemma NoFrame(line: string)
    requires line != "" && line[0] >= '_'
    ensures !StartsWith(line + "\n", "**********")
  {
    if |line + "\n"| >= 10 {
      assert (line + "\n")[..10][0] == line[0] != "**********"[0];
    }
  }

  /** What follows the frame of list j - 1. */
  ghost function RestText(g: FileGroup, j: nat, after: string): string
    requires GoodGroup(g) && j <= |g.lists|
  {
    ListsText(g.lists[j..], g.index) + (GroupLine(g.index) + "\n" + after)
  }

  /** What follows the path line of a list. */
  ghost function Body(f: FileOps, g: int, rest: string): string
    requires GoodList(f)
  {
    OpsText(f.opType, f.ops, g, f.opsIndex) + (ListLine(f.opsIndex) + "\n" + rest)
  }

  lemma RestNext(g: FileGroup, j: nat, after: string)
    requires GoodGroup(g) && j < |g.lists|
    ensures RestText(g, j, after) == PathLine(g.lists[j]) + "\n" + Body(g.lists[j], g.index, RestText(g, j + 1, after))
  {
    var f := g.lists[j];
    assert g.lists[j..][1..] == g.lists[j + 1..] && GoodLists(g.lists[j..]) && GoodLists(g.lists[j + 1..]);
    assert ListsText(g.lists[j..], g.index) == ListText(f, g.index) + ListsText(g.lists[j + 1..], g.index);
    hide ListsText;
    hide PathLine;
    hide OpsText;
    hide ListLine;
    hide GroupLine;
    hide GoodList;
    hide GoodLists;
    var ops, frame, more := OpsText(f.opType, f.ops, g.index, f.opsIndex), ListLine(f.opsIndex) + "\n", ListsText(g.lists[j + 1..], g.index);
    var tail := GroupLine(g.index) + "\n" + after;
    Regroup(PathLine(f) + "\n", ops, frame, more, tail);
  }

  lemma Regroup(a: string, b: string, c: string, d: string, e: string)
    ensures (a + (b + c)) + d + e == a + (b + (c + (d + e)))
  {
  }

  lemma RestEnd(g: FileGroup, after: string)
    requires GoodGroup(g)
    ensures RestText(g, |g.lists|, after) == GroupLine(g.index) + "\n" + after
  {
    assert g.lists[|g.lists|..] == [];
    hide GroupLine;
  }

  /** One list behind its path line, analyze.c:1349-1398. */
  method ReadList(text: string, pos0: nat, line: string, num: nat, t: WorkerType, ghost f: FileOps, ghost g: int, ghost rest: string)
      returns (list: OpList, pos: nat)
    requires GoodList(f) && pos0 <= |text| && line == PathLine(f) + "\n" && text[pos0..] == Body(f, g, rest)
    ensures list == ListAsRead(f, num, t)
    ensures pos0 < pos <= |text| && text[pos..] == rest
  {
    hide *;
    HeadRoundTrip(f, num, t);
    var head := ParseHead(line, num, t);
    BodyText(f, g, rest);
    var ops;
    ops, pos := ReadOps(text, pos0, head.value.opType, f.ops, g, f.opsIndex, rest);
    list := head.value.(ops := ops);
    ListRead(f, num, t, head.value, ops);
  }

  lemma GoodListAt(g: FileGroup, j: nat)
    requires GoodGroup(g) && j < |g.lists|
    ensures GoodList(g.lists[j])
  {
  }

  /** The line after the frame of a list, analyze.c:1400-1411: the frame of the group, or a path line. */
  method FrameLine(text: string, pos0: nat, ghost g: FileGroup, ghost j: nat, ghost after: string)
      returns (line: string, pos: nat)
    requires GoodGroup(g) && j <= |g.lists| && pos0 <= |text| && text[pos0..] == RestText(g, j, after)
    ensures pos0 < pos <= |text|
    ensures StartsWith(line, "##########") <==> j == |g.lists|
    ensures j == |g.lists| ==> text[pos..] == after
    ensures j < |g.lists| ==> && GoodList(g.lists[j]) && line == PathLine(g.lists[j]) + "\n"
                              && text[pos..] == Body(g.lists[j], g.index, RestText(g, j + 1, after))
  {
    hide *;
    if j == |g.lists| {
      RestEnd(g, after);
      GroupFrame(g.index);
      GetlineFirst(text, pos0, GroupLine(g.index), after);
    } else {
      GoodListAt(g, j);
      RestNext(g, j, after);
      NextLine(text, pos0, g.lists[j], Body(g.lists[j], g.index, RestText(g, j + 1, after)));
    }
    line := Getline(text, pos0).value;
    pos := pos0 + |line|;
  }

  /** The lines of a group behind its first path line, analyze.c:1349-1430. */
  method ReadLists(text: string, pos0: nat, line0: string, num: nat, t: WorkerType, ghost g: FileGroup, ghost after: string)
      returns (group: Group, pos: nat)
    requires GoodGroup(g) && pos0 <= |text| && line0 == PathLine(g.lists[0]) + "\n"
    requires text[pos0..] == Body(g.lists[0], g.index, RestText(g, 1, after))
    ensures group == GroupAsRead(g, num, t)
    ensures pos <= |text| && text[pos..] == after
  {
    hide *;
    pos := pos0;
    var line := line0;
    var lists: seq<OpList> := [];
    var opListNum := 0;
    GroupFacts(g);
    while true
      invariant 0 <= opListNum == |lists| < |g.lists| && pos <= |text|
      invariant forall j :: 0 <= j < |g.lists| ==> GoodList(g.lists[j])
      invariant line == PathLine(g.lists[opListNum]) + "\n"
      invariant text[pos..] == Body(g.lists[opListNum], g.index, RestText(g, opListNum + 1, after))
      invariant forall j :: 0 <= j < opListNum ==> lists[j] == ListAsRead(g.lists[j], j, t)
      decreases |text| - pos
    {
      var list;
      list, pos := ReadList(text, pos, line, opListNum, t, g.lists[opListNum], g.index, RestText(g, opListNum + 1, after));
      lists := lists + [list];
      line, pos := FrameLine(text, pos, g, opListNum + 1, after);
      if StartsWith(line, "##########") {
        GroupRead(g, num, t, lists);
        return Group(num, lists), pos;
      }
      opListNum := opListNum + 1;
    }
  }

  lemma BodyText(f: FileOps, g: int, rest: string)
    requires GoodList(f)
    ensures GoodOps(f.opType, f.ops)
    ensures Body(f, g, rest) == OpsText(f.opType, f.ops, g, f.opsIndex) + (ListLine(f.opsIndex) + "\n" + rest)
  {
  }

  lemma ListRead(f: FileOps, n: nat, t: WorkerType, head: OpList, ops: seq<Op>)
    requires GoodList(f) && head == OpList(f.path, NeedOpen(f.opType), f.fileType, f.isNew, f.opType, n, t, [])
    requires GoodOps(f.opType, f.ops) && ops == OpsAsRead(f.opType, f.ops, 0)
    ensures head.(ops := ops) == ListAsRead(f, n, t)
  {
  }

  lemma GroupRead(g: FileGroup, num: nat, t: WorkerType, lists: seq<OpList>)
    requires GoodGroup(g) && |lists| == |g.lists|
    requires forall j :: 0 <= j < |lists| ==> GoodList(g.lists[j]) && lists[j] == ListAsRead(g.lists[j], j, t)
    ensures Group(num, lists) == GroupAsRead(g, num, t)
  {
  }

  lemma NextLine(text: string, pos: nat, f: FileOps, rest: string)
    requires GoodList(f) && pos <= |text| && text[pos..] == PathLine(f) + "\n" + rest
    ensures Getline(text, pos) == Some(PathLine(f) + "\n") && pos + |PathLine(f)| + 1 <= |text|
    ensures text[pos + |PathLine(f)| + 1..] == rest && !StartsWith(PathLine(f) + "\n", "##########")
  {
    PathLineFree(f);
    hide PathLine;
    hide Getline;
    GetlineFirst(text, pos, PathLine(f), rest);
    var line := PathLine(f) + "\n";
    if |line| >= 10 {
      assert line[..10][0] == PathLine(f)[0] != "##########"[0];
    }
  }

  lemma RestZero(g: FileGroup, after: string)
    requires GoodGroup(g)
    ensures RestText(g, 0, after) == GroupText(g) + after
  {
    assert g.lists[0..] == g.lists;
    hide ListsText;
    hide GroupLine;
    Assoc3(ListsText(g.lists, g.index), GroupLine(g.index), "\n", after);
  }

  lemma Assoc3(a: string, b: string, c: string, d: string)
    ensures (a + (b + c)) + d == a + (b + c + d)
  {
  }

  lemma FirstLine(g: FileGroup, after: string)
    requires GoodGroup(g)
    ensures GroupText(g) + after == PathLine(g.lists[0]) + "\n" + Body(g.lists[0], g.index, RestText(g, 1, after))
  {
    hide *;
    GroupFacts(g);
    RestZero(g, after);
    RestNext(g, 0, after);
  }

  lemma Assoc(a: string, b: string, c: string)
    ensures (a + b) + c == a + (b + c)
  {
  }

  lemma OpsTextAt(cls: int, ops: seq<Op>, i: nat, g: int, c: int)
    requires GoodOps(cls, ops) && i < |ops|
    ensures WellFormed(cls, ops[i]) && GoodOps(cls, ops[i..]) && GoodOps(cls, ops[i + 1..])
    ensures var line := OpLine(cls, ops[i], g, c);
            OpsText(cls, ops[i..], g, c) == (if line.Some? then line.value + "\n" else "") + OpsText(cls, ops[i + 1..], g, c)
  {
    assert ops[i..][1..] == ops[i + 1..];
    hide OpLine;
    hide WellFormed;
  }

  lemma OpsTextAll(cls: int, ops: seq<Op>, g: int, c: int)
    requires GoodOps(cls, ops)
    ensures GoodOps(cls, ops[0..]) && OpsText(cls, ops[0..], g, c) == OpsText(cls, ops, g, c)
    ensures GoodOps(cls, ops[|ops|..]) && OpsText(cls, ops[|ops|..], g, c) == ""
  {
    assert ops[0..] == ops;
  }

  /** The operations of a list, analyze.c:1556-1558. */
  method SerialiseOps(f: FileOps, g: int) returns (s: string)
    requires GoodList(f)
    ensures s == OpsText(f.opType, f.ops, g, f.opsIndex)
  {
    s := "";
    var i := 0;
    assert GoodOps(f.opType, f.ops);
    OpsTextAll(f.opType, f.ops, g, f.opsIndex);
    ghost var all := OpsText(f.opType, f.ops, g, f.opsIndex);
    assert s + all == all;
    hide *;
    while i < |f.ops|
      invariant 0 <= i <= |f.ops| && GoodOps(f.opType, f.ops[i..])
      invariant all == s + OpsText(f.opType, f.ops[i..], g, f.opsIndex)
    {
      OpsTextAt(f.opType, f.ops, i, g, f.opsIndex);
      var line := OpLine(f.opType, f.ops[i], g, f.opsIndex);
      var shown := if line.Some? then line.value + "\n" else "";
      Assoc(s, shown, OpsText(f.opType, f.ops[i + 1..], g, f.opsIndex));
      s := s + shown;
      i := i + 1;
    }
    assert s + "" == s;
  }

  method SerialiseList(f: FileOps, g: int) returns (s: string)
    requires GoodList(f)
    ensures s == ListText(f, g)
  {
    hide OpsText;
    hide PathLine;
    hide ListLine;
    hide GoodList;
    var ops := SerialiseOps(f, g);
    s := PathLine(f) + "\n" + (ops + (ListLine(f.opsIndex) + "\n"));
  }

  lemma ListsTextAt(lists: seq<FileOps>, i: nat, g: int)
    requires GoodLists(lists) && i < |lists|
    ensures GoodList(lists[i]) && GoodLists(lists[i..]) && GoodLists(lists[i + 1..])
    ensures ListsText(lists[i..], g) == ListText(lists[i], g) + ListsText(lists[i + 1..], g)
  {
    assert lists[i..][1..] == lists[i + 1..];
    hide ListText;
    hide GoodList;
  }

  lemma ListsTextAll(lists: seq<FileOps>, g: int)
    requires GoodLists(lists)
    ensures GoodLists(lists[0..]) && ListsText(lists[0..], g) == ListsText(lists, g)
    ensures GoodLists(lists[|lists|..]) && ListsText(lists[|lists|..], g) == ""
  {
    assert lists[0..] == lists;
  }

  /** The loop over the lists, analyze.c:1537-1562. */
  method SerialiseLists(g: FileGroup) returns (s: string)
    requires GoodGroup(g)
    ensures s == ListsText(g.lists, g.index)
  {
    s := "";
    var i := 0;
    assert GoodLists(g.lists);
    ListsTextAll(g.lists, g.index);
    ghost var all := ListsText(g.lists, g.index);
    assert s + all == all;
    hide *;
    while i < |g.lists|
      invariant 0 <= i <= |g.lists| && GoodLists(g.lists[i..]) && all == s + ListsText(g.lists[i..], g.index)
    {
      ListsTextAt(g.lists, i, g.index);
      var list := SerialiseList(g.lists[i], g.index);
      Assoc(s, list, ListsText(g.lists[i + 1..], g.index));
      s := s + list;
      i := i + 1;
    }
    assert s + "" == s;
  }

  method SerialiseGroup(g: FileGroup) returns (s: string)
    requires GoodGroup(g)
    ensures s == GroupText(g)
  {
    hide ListsText;
    hide GroupLine;
    var lists := SerialiseLists(g);
    s := lists + (GroupLine(g.index) + "\n");
  }

  lemma GoodGrows(groups: seq<FileGroup>, g: FileGroup, n: nat)
    requires GoodGroups(groups) && GoodGroup(g) && n <= |groups|
    ensures GoodGroups(groups + [g]) && GoodGroups(groups[..n])
  {
    hide GoodGroup;
  }

  lemma TextSnoc(groups: seq<FileGroup>, g: FileGroup)
    requires GoodGroups(groups) && GoodGroup(g) && GoodGroups(groups + [g])
    ensures Text(groups + [g]) == Text(groups) + GroupText(g)
  {
    assert (groups + [g])[..|groups|] == groups;
    hide GroupText;
    hide GoodGroup;
    hide GoodGroups;
  }

  lemma TextGrows(groups: seq<FileGroup>, g: FileGroup, n: nat)
    requires GoodGroups(groups) && GoodGroup(g) && n <= |groups|
    ensures GoodGroups(groups + [g]) && GoodGroups(groups[..n])
    ensures Text(groups + [g]) == Text(groups) + GroupText(g)
    ensures (groups + [g])[..n] == groups[..n]
  {
    hide *;
    GoodGrows(groups, g, n);
    TextSnoc(groups, g);
  }

  lemma TextEnds(groups: seq<FileGroup>, n: nat)
    requires GoodGroups(groups) && n <= |groups|
    ensures GoodGroups(groups[..n])
    ensures |Text(groups[..n])| <= |Text(groups)|
    ensures |Text(groups[..n])| == |Text(groups)| <==> n == |groups|
  {
    TextPrefix(groups, n);
    assert groups[..|groups|] == groups;
    hide Text;
    hide GoodGroup;
  }

  lemma Behind(s: string, a: string, b: string, c: string, ab: string)
    requires s == a + (b + c) && ab == a + b
    ensures |a| <= |s| && s[|a|..] == b + c && |s| - |c| == |ab|
  {
  }

  lemma TextFrom(groups: seq<FileGroup>, n: nat) returns (after: string)
    requires GoodGroups(groups) && n < |groups|
    ensures GoodGroup(groups[n]) && GoodGroups(groups[..n]) && GoodGroups(groups[..n + 1])
    ensures |Text(groups[..n])| <= |Text(groups)|
    ensures Text(groups)[|Text(groups[..n])|..] == GroupText(groups[n]) + after
    ensures |Text(groups)| - |after| == |Text(groups[..n + 1])|
  {
    GoodAt(groups, n);
    hide *;
    after := TextSplit(groups, n);
    Behind(Text(groups), Text(groups[..n]), GroupText(groups[n]), after, Text(groups[..n + 1]));
  }

  lemma GoodAt(groups: seq<FileGroup>, n: nat)
    requires GoodGroups(groups) && n < |groups|
    ensures GoodGroup(groups[n]) && GoodGroups(groups[..n]) && GoodGroups(groups[..n + 1])
  {
    hide GoodGroup;
  }

  lemma TextFromLine(groups: seq<FileGroup>, n: nat) returns (after: string)
    requires GoodGroups(groups) && n < |groups|
    ensures GoodGroup(groups[n]) && GoodGroups(groups[..n]) && GoodGroups(groups[..n + 1])
    ensures var off, f := |Text(groups[..n])|, groups[n].lists[0];
            && GoodList(f) && off <= |Text(groups)|
            && Text(groups)[off..] == PathLine(f) + "\n" + Body(f, groups[n].index, RestText(groups[n], 1, after))
    ensures |Text(groups)| - |after| == |Text(groups[..n + 1])|
  {
    after := TextFrom(groups, n);
    assert GoodGroup(groups[n]) && groups[n].lists != [] && GoodList(groups[n].lists[0]);
    FirstLine(groups[n], after);
  }

  /** analyze.c:1325-1430 for one reader at the offset of its group. */
  method ReadGroup(text: string, off: nat, num: nat, t: WorkerType, ghost groups: seq<FileGroup>)
      returns (r: Option<Group>, pos: nat)
    requires GoodGroups(groups) && text == Text(groups) && num <= |groups|
    requires GoodGroups(groups[..num]) && off == |Text(groups[..num])|
    ensures r.Some? <==> num < |groups|
    ensures r.Some? ==> GoodGroup(groups[num]) && r == Some(GroupAsRead(groups[num], num, t))
                        && GoodGroups(groups[..num + 1]) && pos == |Text(groups[..num + 1])|
  {
    hide *;
    TextEnds(groups, num);
    var line := Getline(text, off);
    if line.None? {
      return None, off;
    }
    ghost var after := TextFromLine(groups, num);
    ghost var g := groups[num];
    GroupFacts(g);
    NextLine(text, off, g.lists[0], Body(g.lists[0], g.index, RestText(g, 1, after)));
    var group;
    group, pos := ReadLists(text, off + |line.value|, line.value, num, t, g, after);
    r := Some(group);
  }

  lemma GroupFacts(g: FileGroup)
    requires GoodGroup(g)
    ensures |g.lists| >= 1 && GoodList(g.lists[0])
    ensures forall j :: 0 <= j < |g.lists| ==> GoodList(g.lists[j])
  {
    hide GoodList;
  }

  /** The journal file with what global_journal_t holds for its readers. */
  class Journal {
    var text: string
    var diskOffset: nat
    var clusterOffset: nat
    var diskNum: nat
    var clusterNum: nat
    ghost var groups: seq<FileGroup>

    /** Each reader stands at the end of the groups that it has counted. */
    ghost predicate Valid()
      reads this
    {
      && GoodGroups(groups) && text == Text(groups)
      && diskNum <= |groups| && GoodGroups(groups[..diskNum]) && diskOffset == |Text(groups[..diskNum])|
      && clusterNum <= |groups| && GoodGroups(groups[..clusterNum]) && clusterOffset == |Text(groups[..clusterNum])|
    }

    constructor ()
      ensures Valid() && groups == [] && diskNum == clusterNum == 0
    {
      text, groups := "", [];
      diskOffset, clusterOffset, diskNum, clusterNum := 0, 0, 0, 0;
    }

    /** analyze.c:1536-1574, under the read lock: a group is put at the end. */
    method WriteGroup(g: FileGroup)
      requires Valid() && GoodGroup(g)
      modifies this`text, this`groups
      ensures Valid() && groups == old(groups) + [g] && text == old(text) + GroupText(g)
    {
      hide Text;
      hide GroupText;
      hide GoodGroup;
      hide GoodGroups;
      TextGrows(groups, g, diskNum);
      TextGrows(groups, g, clusterNum);
      var s := SerialiseGroup(g);
      text := text + s;
      groups := groups + [g];
    }

    /** How many groups a reader has got. */
    function Num(t: WorkerType): nat
      reads this
    {
      if t == Disk then diskNum else clusterNum
    }

    /** Where it goes on reading. */
    function Offset(t: WorkerType): nat
      reads this
    {
      if t == Disk then diskOffset else clusterOffset
    }

    /** analyze_string_read, analyze.c:1293-1475: the next group of the reader, its offset moved to the
        end of that group; nothing, and nothing changed, at the end of the text.  The other reader is
        left alone. */
    method AnalyzeStringRead(t: WorkerType) returns (r: Option<Group>)
      requires Valid()
      modifies this`diskOffset, this`clusterOffset, this`diskNum, this`clusterNum
      ensures Valid()
      ensures forall u :: u != t ==> Num(u) == old(Num(u))
      ensures old(Num(t)) == |groups| ==> r == None && Num(t) == old(Num(t))
      ensures old(Num(t)) < |groups| ==>
                GoodGroup(groups[old(Num(t))]) && Num(t) == old(Num(t)) + 1
                && r == Some(GroupAsRead(groups[old(Num(t))], old(Num(t)), t))
    {
      hide Text;
      hide GoodGroup;
      hide GoodGroups;
      hide GroupAsRead;
      var off, num := if t == Disk then diskOffset else clusterOffset, if t == Disk then diskNum else clusterNum;
      var pos;
      r, pos := ReadGroup(text, off, num, t, groups);
      if r.Some? {
        if t == Disk {
          diskOffset, diskNum := pos, num + 1;
        } else {
          clusterOffset, clusterNum := pos, num + 1;
        }
      }
    }
  }

  /** What happens to a journal: the generator writes a group, or one of the readers asks for one. */
  datatype Event = WriteEvent(g: FileGroup) | ReadEvent(t: WorkerType)

  predicate GoodEvents(events: seq<Event>) {
    forall i :: 0 <= i < |events| && events[i].WriteEvent? ==> GoodGroup(events[i].g)
  }

  /** The groups written, in order. */
  function WrittenGroups(events: seq<Event>): seq<FileGroup> {
    if events == [] then []
    else
      var e := events[|events| - 1];
      WrittenGroups(events[..|events| - 1]) + if e.WriteEvent? then [e.g] else []
  }

  lemma {:induction false} WrittenGood(events: seq<Event>)
    requires GoodEvents(events)
    ensures GoodGroups(WrittenGroups(events))
  {
    hide GoodGroup;
    if events != [] {
      WrittenGood(events[..|events| - 1]);
    }
  }

  /** How many groups reader `t` has got: each of its calls that finds one more group written counts. */
  function Taken(events: seq<Event>, t: WorkerType): (n: nat)
    ensures n <= |WrittenGroups(events)|
  {
    if events == [] then 0
    else
      var before := events[..|events| - 1];
      var n := Taken(before, t);
      if events[|events| - 1] == ReadEvent(t) && n < |WrittenGroups(before)| then n + 1 else n
  }

  /** What event `i` must give: to a reader that has got n groups the one of number n, if it has been
      written by then. */
  function Answer(events: seq<Event>, i: nat): Option<Group>
    requires GoodEvents(events) && i < |events|
  {
    if events[i].WriteEvent? then None
    else
      var t, groups := events[i].t, WrittenGroups(events[..i]);
      var n := Taken(events[..i], t);
      WrittenGood(events[..i]);
      if n < |groups| then
        assert GoodGroup(groups[n]);
        Some(GroupAsRead(groups[n], n, t))
      else None
  }

  /** All that reader `t` gets. */
  function Got(events: seq<Event>, t: WorkerType): seq<Group>
    requires GoodEvents(events)
  {
    if events == [] then []
    else
      var n := |events| - 1;
      var r := Answer(events, n);
      Got(events[..n], t) + if events[n] == ReadEvent(t) && r.Some? then [r.value] else []
  }

  /** However the calls of the two readers and the writes are mixed, a reader gets the groups written,
      from the first on, in order, none left out and none twice. */
  lemma {:induction false} GotInOrder(events: seq<Event>, t: WorkerType)
    requires GoodEvents(events)
    ensures |Got(events, t)| == Taken(events, t)
    ensures GoodGroups(WrittenGroups(events))
    ensures forall i :: 0 <= i < Taken(events, t) ==> Got(events, t)[i] == GroupAsRead(WrittenGroups(events)[i], i, t)
  {
    hide GoodGroup;
    hide GroupAsRead;
    WrittenGood(events);
    if events != [] {
      GotInOrder(events[..|events| - 1], t);
    }
  }

  /** The journal after some events: all groups written, and each reader at the end of its last one. */
  ghost predicate After(journal: Journal, events: seq<Event>)
    reads journal
  {
    && journal.Valid() && journal.groups == WrittenGroups(events)
    && journal.Num(Disk) == Taken(events, Disk) && journal.Num(Digioceand) == Taken(events, Digioceand)
  }

  lemma EventNext(events: seq<Event>, i: nat)
    requires i < |events|
    ensures WrittenGroups(events[..i + 1])
         == if events[i].WriteEvent? then WrittenGroups(events[..i]) + [events[i].g] else WrittenGroups(events[..i])
    ensures forall t :: Taken(events[..i + 1], t) == Taken(events[..i], t)
              + if events[i] == ReadEvent(t) && Taken(events[..i], t) < |WrittenGroups(events[..i])| then 1 else 0
  {
    assert events[..i + 1][..i] == events[..i];
  }

  method Happen(journal: Journal, events: seq<Event>, i: nat) returns (r: Option<Group>)
    requires GoodEvents(events) && i < |events| && After(journal, events[..i])
    modifies journal
    ensures After(journal, events[..i + 1]) && r == Answer(events, i)
  {
    hide GoodGroup;
    hide GroupAsRead;
    hide Text;
    hide GoodGroups;
    EventNext(events, i);
    WrittenGood(events[..i]);
    hide WrittenGroups;
    hide Taken;
    r := None;
    match events[i] {
      case WriteEvent(g) =>
        journal.WriteGroup(g);
      case ReadEvent(t) =>
        r := journal.AnalyzeStringRead(t);
    }
  }

  /** Any order of writes and of calls of the two readers: every call gives what it must, and at the end
      each reader's offset is the end of the last group that it has got. */
  method Run(events: seq<Event>) returns (journal: Journal, answers: seq<Option<Group>>)
    requires GoodEvents(events)
    ensures |answers| == |events| && forall i :: 0 <= i < |events| ==> answers[i] == Answer(events, i)
    ensures After(journal, events) && GoodGroups(journal.groups)
    ensures forall t :: var n := Taken(events, t);
              GoodGroups(journal.groups[..n]) && journal.Offset(t) == |Text(journal.groups[..n])|
  {
    hide *;
    journal := new Journal();
    NothingYet(journal, events);
    answers := [];
    var i := 0;
    while i < |events|
      invariant 0 <= i <= |events| && fresh(journal) && After(journal, events[..i])
      invariant |answers| == i && forall j :: 0 <= j < i ==> answers[j] == Answer(events, j)
    {
      var r := Happen(journal, events, i);
      answers := answers + [r];
      i := i + 1;
    }
    assert events[..i] == events;
    AtEnds(journal, events);
  }

  lemma NothingYet(journal: Journal, events: seq<Event>)
    requires journal.Valid() && journal.groups == [] && journal.diskNum == journal.clusterNum == 0
    ensures After(journal, events[..0])
  {
    assert events[..0] == [];
  }

  lemma AtEnds(journal: Journal, events: seq<Event>)
    requires After(journal, events)
    ensures GoodGroups(journal.groups)
    ensures forall t :: var n := Taken(events, t);
              n <= |journal.groups| && GoodGroups(journal.groups[..n]) && journal.Offset(t) == |Text(journal.groups[..n])|
  {
    hide Text;
    hide GoodGroups;
    forall t ensures var n := Taken(events, t);
                     n <= |journal.groups| && GoodGroups(journal.groups[..n])
                     && journal.Offset(t) == |Text(journal.groups[..n])| {
      if t == Disk {} else {}
    }
  }
}
