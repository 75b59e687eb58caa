/** Groups of operation lists as journal text (the serialising loop of thread_writev,
    analyze.c:1536-1574) and the lines of a group read back (analyze.c:1349-1430). */
module JournalGroups {
  import opened JournalText
  import opened JournalOps
  import opened Wrappers

  const STARS := "*************************"
  const HASHES := "#########################"

  /** file_ops_t and file_ops_group_t: what the generator hands to the journal.  `path` is what
      get_path_for_file_node gives. */
  datatype FileOps = FileOps(path: string, fileType: int, isNew: int, opType: int, opsIndex: int, ops: seq<Op>)
  datatype FileGroup = FileGroup(index: int, lists: seq<FileOps>)

  datatype WorkerType = Disk | Digioceand

  /** journal_file_op_list_t and journal_file_group_t: what a reader gets. */
  datatype OpList = OpList(path: string, isNeedOpen: int, fileType: int, isNew: int, opType: int,
                           opsIndex: int, opListType: WorkerType, ops: seq<Op>)
  datatype Group = Group(index: int, lists: seq<OpList>)

  predicate IsInt(n: int) { INT_MIN <= n <= INT_MAX }

  predicate GoodOps(cls: int, ops: seq<Op>) { forall i :: 0 <= i < |ops| ==> WellFormed(cls, ops[i]) }

  predicate GoodList(f: FileOps) {
    && Clean(f.path) && IsInt(f.fileType) && IsInt(f.isNew) && IsInt(f.opType)
    && GoodOps(f.opType, f.ops)
  }

  /** Groups of at least one list, of paths and arguments that fit their C types and the line format. */
  predicate GoodGroup(g: FileGroup) { g.lists != [] && GoodLists(g.lists) }

  predicate GoodLists(lists: seq<FileOps>) { forall i :: 0 <= i < |lists| ==> GoodList(lists[i]) }

  function NeedOpen(opType: int): int {
    if opType == OPENED_DIR_OP || opType == OPENED_FILE_OP then 1 else 0
  }

  function KeyInt(key: string, n: int): string { key + "=" + Print(n) }

  /** Two words with a blank between. */
  function Then(a: string, b: string): string { a + " " + b }

  function Fields(f: FileOps): string { Then(KeyInt("need_open", NeedOpen(f.opType)), Fields1(f)) }
  function Fields1(f: FileOps): string { Then(KeyInt("file_type", f.fileType), Fields2(f)) }
  function Fields2(f: FileOps): string { Then(KeyInt("is_new", f.isNew), Fields3(f)) }
  function Fields3(f: FileOps): string { KeyInt("op_type", f.opType) }

  function PathLine(f: FileOps): string { Then("path=" + f.path, Fields(f)) }

  function ListLine(n: int): string { STARS + "op_list_num=" + Print(n) + " " + STARS }

  function GroupLine(n: int): string { HASHES + "group_num=" + Print(n) + " " + HASHES }

  function OpsText(cls: int, ops: seq<Op>, g: int, c: int): string
    requires GoodOps(cls, ops)
  {
    if ops == [] then ""
    else
      assert WellFormed(cls, ops[0]);
      var line := OpLine(cls, ops[0], g, c);
      (if line.Some? then line.value + "\n" else "") + OpsText(cls, ops[1..], g, c)
  }

  function ListText(f: FileOps, g: int): string
    requires GoodList(f)
  {
    PathLine(f) + "\n" + (OpsText(f.opType, f.ops, g, f.opsIndex) + (ListLine(f.opsIndex) + "\n"))
  }

  function ListsText(lists: seq<FileOps>, g: int): string
    requires GoodLists(lists)
  {
    if lists == [] then "" else ListText(lists[0], g) + ListsText(lists[1..], g)
  }

  function GroupText(g: FileGroup): (s: string)
    requires GoodGroup(g)
    ensures s != ""
  {
    ListsText(g.lists, g.index) + (GroupLine(g.index) + "\n")
  }

  /** The known operations, as they are read, numbered from `n`. */
  function OpsAsRead(cls: int, ops: seq<Op>, n: nat): seq<Op>
    requires GoodOps(cls, ops)
  {
    if ops == [] then []
    else if Written(cls, ops[0].num).None? then OpsAsRead(cls, ops[1..], n)
    else [OpAsRead(cls, ops[0], n)] + OpsAsRead(cls, ops[1..], n + 1)
  }

  function ListAsRead(f: FileOps, n: nat, t: WorkerType): OpList
    requires GoodList(f)
  {
    OpList(f.path, NeedOpen(f.opType), f.fileType, f.isNew, f.opType, n, t, OpsAsRead(f.opType, f.ops, 0))
  }

  /** The group that comes back: path, flags and class as they were, lists and operations numbered
      from 0, the group by the reader's own count. */
  function GroupAsRead(g: FileGroup, num: nat, t: WorkerType): (r: Group)
    requires GoodGroup(g)
    ensures |r.lists| == |g.lists|
  {
    Group(num, seq(|g.lists|, i requires 0 <= i < |g.lists| => ListAsRead(g.lists[i], i, t)))
  }

  /** analyze.c:1361-1376: the fields behind the path, by their places. */
  function SetField(h: OpList, i: nat, n: int): OpList {
    if i == 0 then h.(isNeedOpen := n)
    else if i == 1 then h.(fileType := n)
    else if i == 2 then h.(isNew := n)
    else if i == 3 then h.(opType := n)
    else h
  }

  function ReadFields(rest: string, i: nat, h: OpList): Option<OpList>
    decreases |rest|
  {
    var t := Strtok(rest);
    if t.None? then Some(h)
    else
      var p := AfterEq(t.value.text);
      if p.None? then None else ReadFields(t.value.rest, i + 1, SetField(h, i, Atoi(p.value)))
  }

  /** analyze.c:1350-1381: the head of a list; None where a null pointer would be followed. */
  function ReadHead(line: string, num: int, t: WorkerType): Option<OpList> {
    var path := Strtok(line);
    if path.None? then None
    else
      var p := AfterEq(path.value.text);
      if p.None? then None else ReadFields(path.value.rest, 0, OpList(p.value, 0, 0, 0, 0, num, t, []))
  }

  method ParseHead(line: string, num: int, t: WorkerType) returns (h: Option<OpList>)
    ensures h == ReadHead(line, num, t)
  {
    var path := Strtok(line);
    if path.None? {
      return None;
    }
    var p := AfterEq(path.value.text);
    if p.None? {
      return None;
    }
    var opList := OpList(p.value, 0, 0, 0, 0, num, t, []);
    var tmp := path.value.rest;
    var i := 0;
    var tok := Strtok(tmp);
    while tok.Some?
      invariant 0 <= i && tok == Strtok(tmp) && ReadHead(line, num, t) == ReadFields(tmp, i, opList)
      decreases |tmp|
    {
      p := AfterEq(tok.value.text);
      if p.None? {
        return None;
      }
      opList := SetField(opList, i, Atoi(p.value));
      i := i + 1;
      tmp := tok.value.rest;
      tok := Strtok(tmp);
    }
    h := Some(opList);
  }

  lemma FieldStep(key: string, n: int, rest: string, i: nat, h: OpList)
    requires Word(key) && IsInt(n)
    ensures ReadFields(Then(KeyInt(key, n), rest), i, h) == ReadFields(rest, i + 1, SetField(h, i, n))
    ensures ReadFields(KeyInt(key, n) + "\n", i, h) == Some(SetField(h, i, n))
  {
    var token := KeyInt(key, n);
    PrintFree(n, ' ');
    assert Free(token, ' ') && Free(token + "\n", ' ') && Free(key, '=');
    AtoiPrint(n, "");
    AtoiPrint(n, "\n");
    assert Print(n) + "" == Print(n) && key + "=" + (Print(n) + "\n") == token + "\n";
    hide Print;
    hide Free;
    hide Word;
    hide Strtok;
    hide AfterEq;
    hide SetField;
    StrtokFirst(token, rest);
    StrtokFirst(token + "\n", "");
    AfterEqKey(key, Print(n));
    AfterEqKey(key, Print(n) + "\n");
    StrtokEnd();
    assert ReadFields("", i + 1, SetField(h, i, n)) == Some(SetField(h, i, n));
  }

  lemma StrtokEnd()
    ensures Strtok("") == None
  {
  }

  lemma ThenNewline(a: string, b: string)
    ensures Then(a, b) + "\n" == Then(a, b + "\n")
  {
  }

  lemma HeadWords()
    ensures Word("need_open") && Word("file_type") && Word("is_new") && Word("op_type")
  {
  }

  /** The four fields of a path line. */
  lemma FourFields(f: FileOps, h: OpList)
    requires IsInt(f.fileType) && IsInt(f.isNew) && IsInt(f.opType)
    ensures ReadFields(Fields(f) + "\n", 0, h)
         == Some(h.(isNeedOpen := NeedOpen(f.opType), fileType := f.fileType, isNew := f.isNew, opType := f.opType))
  {
    var h1 := SetField(h, 0, NeedOpen(f.opType));
    var h2 := SetField(h1, 1, f.fileType);
    var h3 := SetField(h2, 2, f.isNew);
    HeadWords();
    hide ReadFields;
    hide KeyInt;
    hide Then;
    hide Word;
    ThenNewline(KeyInt("need_open", NeedOpen(f.opType)), Fields1(f));
    FieldStep("need_open", NeedOpen(f.opType), Fields1(f) + "\n", 0, h);
    ThenNewline(KeyInt("file_type", f.fileType), Fields2(f));
    FieldStep("file_type", f.fileType, Fields2(f) + "\n", 1, h1);
    ThenNewline(KeyInt("is_new", f.isNew), Fields3(f));
    FieldStep("is_new", f.isNew, Fields3(f) + "\n", 2, h2);
    FieldStep("op_type", f.opType, "", 3, h3);
  }

  lemma PathToken(f: FileOps, rest: string)
    requires Clean(f.path)
    ensures Strtok(Then("path=" + f.path, rest)) == Some(Token("path=" + f.path, rest))
    ensures AfterEq("path=" + f.path) == Some(f.path)
  {
    assert Free("path=" + f.path, ' ') && Free("path", '=');
    assert "path" + "=" + f.path == "path=" + f.path;
    hide Strtok;
    hide AfterEq;
    hide Free;
    StrtokFirst("path=" + f.path, rest);
    AfterEqKey("path", f.path);
  }

  /** Reading the path line of a list gives its path, flags and class. */
  lemma HeadRoundTrip(f: FileOps, num: int, t: WorkerType)
    requires GoodList(f)
    ensures ReadHead(PathLine(f) + "\n", num, t)
         == Some(OpList(f.path, NeedOpen(f.opType), f.fileType, f.isNew, f.opType, num, t, []))
  {
    hide Fields;
    hide Then;
    hide ReadFields;
    hide Strtok;
    hide AfterEq;
    hide WellFormed;
    ThenNewline("path=" + f.path, Fields(f));
    PathToken(f, Fields(f) + "\n");
    FourFields(f, OpList(f.path, 0, 0, 0, 0, num, t, []));
  }

  lemma ThenFree(a: string, b: string)
    requires Free(a, '\n') && Free(b, '\n')
    ensures Free(Then(a, b), '\n')
  {
  }

  lemma KeyIntFree(key: string, n: int)
    requires Word(key)
    ensures Free(KeyInt(key, n), '\n')
  {
    PrintFree(n, '\n');
  }

  lemma PathLineFree(f: FileOps)
    requires GoodList(f)
    ensures Free(PathLine(f), '\n') && PathLine(f) != "" && PathLine(f)[0] == 'p'
  {
    HeadWords();
    assert Free("path=" + f.path, '\n');
    assert PathLine(f)[0] == 'p';
    hide Word;
    hide Free;
    hide KeyInt;
    hide Then;
    KeyIntFree("need_open", NeedOpen(f.opType));
    KeyIntFree("file_type", f.fileType);
    KeyIntFree("is_new", f.isNew);
    KeyIntFree("op_type", f.opType);
    ThenFree(KeyInt("is_new", f.isNew), Fields3(f));
    ThenFree(KeyInt("file_type", f.fileType), Fields2(f));
    ThenFree(KeyInt("need_open", NeedOpen(f.opType)), Fields1(f));
    ThenFree("path=" + f.path, Fields(f));
  }

  lemma FrameFree(a: string, n: int, b: string)
    requires Free(a, '\n') && Free(b, '\n') 
    ensures Free(a + Print(n) + b, '\n')
  {
    PrintFree(n, '\n');
  }

  lemma FrameWords()
    ensures Free(STARS + "op_list_num=", '\n') && Free(" " + STARS, '\n')
    ensures Free(HASHES + "group_num=", '\n') && Free(" " + HASHES, '\n')
  {
  }

  lemma ListFrame(n: int)
    ensures Free(ListLine(n), '\n') && StartsWith(ListLine(n) + "\n", "**********")
  {
    FrameWords();
    FrameFree(STARS + "op_list_num=", n, " " + STARS);
    hide Print;
    hide Free;
    assert ListLine(n) == STARS + "op_list_num=" + Print(n) + (" " + STARS);
  }

  lemma GroupFrame(n: int)
    ensures Free(GroupLine(n), '\n') && StartsWith(GroupLine(n) + "\n", "##########")
  {
    FrameWords();
    FrameFree(HASHES + "group_num=", n, " " + HASHES);
    hide Print;
    hide Free;
    assert GroupLine(n) == HASHES + "group_num=" + Print(n) + (" " + HASHES);
  }
}
