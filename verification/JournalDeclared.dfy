/** Which operations there are, and which members they have, as shark_ops.h:123-331 declares them; and that
    the journal leaves none of them out. */
module JournalDeclared {
  import opened JournalText
  import opened JournalOps
  import opened JournalGroups

  /** The structs of the union `args`; NoStruct for an operation without one. */
  datatype Struct =
    | NoStruct | PwritevArgs | PreadvArgs | RenameArgs | SymlinkArgs | LinkArgs | TruncateArgs | SetxattrArgs
    | GetxattrArgs | RemovexattrArgs | AccessArgs | LkArgs | ChownArgs | ChmodArgs | UtimesArgs | FallocateArgs

  /** The types of their members; a timeval is two numbers, a time two timevals. */
  function Members(s: Struct): seq<Kind> {
    match s
    case NoStruct => []
    case PwritevArgs => [I64]
    case PreadvArgs => [I64]
    case RenameArgs => [Str]
    case SymlinkArgs => [Str]
    case LinkArgs => [Str]
    case TruncateArgs => [I64]
    case SetxattrArgs => [Str, Str, I32]
    case GetxattrArgs => [Str]
    case RemovexattrArgs => [Str]
    case AccessArgs => [I32]
    case LkArgs => [I32]
    case ChownArgs => [U32, U32]
    case ChmodArgs => [U32]
    case UtimesArgs => [I64, I64, I64, I64]
    case FallocateArgs => [I32, I64, I64]
  }

  /** What of it the journal carries: everything but the second timeval of a time. */
  function Carried(s: Struct): seq<Kind> { if s == UtimesArgs then Members(s)[..2] else Members(s) }

  /** The enumerations, without the bounds at their ends: the structs of the operations 1, 2, ... of a
      class. */
  function Declared(cls: int): seq<Struct> {
    if cls == OPENED_DIR_OP then
      [NoStruct, SetxattrArgs, GetxattrArgs, RemovexattrArgs, NoStruct, ChownArgs, ChmodArgs, UtimesArgs, NoStruct]
    else if cls == NO_OPEN_DIR_OP then
      [AccessArgs, RenameArgs, SymlinkArgs, SetxattrArgs, GetxattrArgs, RemovexattrArgs, ChownArgs, ChmodArgs,
       UtimesArgs, NoStruct, NoStruct, NoStruct]
    else if cls == OPENED_FILE_OP then
      [PwritevArgs, PreadvArgs, FallocateArgs, TruncateArgs, NoStruct, SetxattrArgs, GetxattrArgs, RemovexattrArgs,
       LkArgs, ChownArgs, ChmodArgs, UtimesArgs, NoStruct]
    else if cls == NO_OPEN_FILE_OP then
      [RenameArgs, SymlinkArgs, LinkArgs, TruncateArgs, SetxattrArgs, GetxattrArgs, RemovexattrArgs, AccessArgs,
       ChownArgs, ChmodArgs, UtimesArgs, NoStruct, NoStruct, NoStruct]
    else if cls == SYMLINK_OP then [NoStruct, NoStruct]
    else []
  }

  predicate Known(cls: int, num: int) { 1 <= num <= |Declared(cls)| }

  lemma HowMany()
    ensures |Declared(OPENED_DIR_OP)| == 9 && |Declared(NO_OPEN_DIR_OP)| == 12
    ensures |Declared(OPENED_FILE_OP)| == 13 && |Declared(NO_OPEN_FILE_OP)| == 14 && |Declared(SYMLINK_OP)| == 2
  {
  }

  lemma CompleteOpenDir(num: int)
    ensures WrittenOpenDir(num).Some? <==> 1 <= num <= 9
    ensures 1 <= num <= 9 ==>
              Kinds(WrittenOpenDir(num).value.fields) == Carried(Declared(OPENED_DIR_OP)[num - 1])
  {
  }

  lemma CompleteDir(num: int)
    ensures WrittenDir(num).Some? <==> 1 <= num <= 12
    ensures 1 <= num <= 12 ==> Kinds(WrittenDir(num).value.fields) == Carried(Declared(NO_OPEN_DIR_OP)[num - 1])
  {
  }

  lemma CompleteOpenFile(num: int)
    ensures WrittenOpenFile(num).Some? <==> 1 <= num <= 13
    ensures 1 <= num <= 13 ==>
              Kinds(WrittenOpenFile(num).value.fields) == Carried(Declared(OPENED_FILE_OP)[num - 1])
  {
  }

  lemma CompleteFile(num: int)
    ensures WrittenFile(num).Some? <==> 1 <= num <= 14
    ensures 1 <= num <= 14 ==> Kinds(WrittenFile(num).value.fields) == Carried(Declared(NO_OPEN_FILE_OP)[num - 1])
  {
  }

  lemma CompleteSymlink(num: int)
    ensures WrittenSymlink(num).Some? <==> 1 <= num <= 2
    ensures 1 <= num <= 2 ==> Kinds(WrittenSymlink(num).value.fields) == Carried(Declared(SYMLINK_OP)[num - 1])
  {
  }

  /** The writer knows exactly the declared operations, and prints of each the members that its struct
      declares, in their order. */
  lemma WriterComplete(cls: int, num: int)
    ensures Written(cls, num).Some? <==>
              || (cls == OPENED_DIR_OP && 1 <= num <= 9) || (cls == NO_OPEN_DIR_OP && 1 <= num <= 12)
              || (cls == OPENED_FILE_OP && 1 <= num <= 13) || (cls == NO_OPEN_FILE_OP && 1 <= num <= 14)
              || (cls == SYMLINK_OP && 1 <= num <= 2)
    ensures Written(cls, num).Some? <==> Known(cls, num)
    ensures Known(cls, num) ==> Kinds(Written(cls, num).value.fields) == Carried(Declared(cls)[num - 1])
  {
    CompleteOpenDir(num);
    CompleteDir(num);
    CompleteOpenFile(num);
    CompleteFile(num);
    CompleteSymlink(num);
    HowMany();
    hide WrittenOpenDir;
    hide WrittenDir;
    hide WrittenOpenFile;
    hide WrittenFile;
    hide WrittenSymlink;
    hide Carried;
    hide Kinds;
  }

  /** The reader has a case of its own for each of them, which reads just those members; only the rename
      of a directory is taken for another. */
  lemma ReaderComplete(cls: int, num: int)
    requires Known(cls, num)
    ensures Written(cls, num).Some?
    ensures Read(cls, Written(cls, num).value.name)
         == Shape(if cls == NO_OPEN_DIR_OP && num == 2 then 1 else num, Carried(Declared(cls)[num - 1]))
  {
    WriterComplete(cls, num);
    TablesAgree(cls, num);
    hide Read;
    hide Written;
    hide Kinds;
    hide Carried;
    hide Declared;
  }

  /** The operations of a list that are declared. */
  function Kept(cls: int, ops: seq<Op>): seq<Op> {
    if ops == [] then [] else (if Known(cls, ops[0].num) then [ops[0]] else []) + Kept(cls, ops[1..])
  }

  lemma {:induction false} KeptAll(cls: int, ops: seq<Op>)
    requires forall i :: 0 <= i < |ops| ==> Known(cls, ops[i].num)
    ensures Kept(cls, ops) == ops
  {
    hide Known;
    if ops != [] {
      KeptAll(cls, ops[1..]);
      assert ops == [ops[0]] + ops[1..];
    }
  }

  /** What an operation is when it comes back: number and members as declared, a 64-bit number cut to an
      int, the index its place in the list. */
  ghost predicate CameBack(cls: int, op: Op, r: Op, index: int) {
    && Known(cls, op.num)
    && r.num == (if cls == NO_OPEN_DIR_OP && op.num == 2 then 1 else op.num) && r.index == index
    && var kinds := Carried(Declared(cls)[op.num - 1]);
       |r.args| == |kinds| <= |op.args|
       && forall i :: 0 <= i < |kinds| ==>
            HasKind(op.args[i], kinds[i])
            && r.args[i] == if kinds[i] == I64 then N(ToInt32(op.args[i].n)) else op.args[i]
  }

  lemma OneCameBack(cls: int, op: Op, n: int)
    requires Known(cls, op.num) && WellFormed(cls, op)
    ensures Written(cls, op.num).Some? && CameBack(cls, op, OpAsRead(cls, op, n), n)
  {
    WriterComplete(cls, op.num);
    hide Written;
    hide Declared;
    hide Carried;
    hide ToInt32;
    var fields := Written(cls, op.num).value.fields;
    assert forall i :: 0 <= i < |fields| ==> Kinds(fields)[i] == fields[i].kind;
  }

  /** No declared operation is lost: of a list exactly the declared ones come back, in order, numbered
      from `n` on, each with all its carried members. */
  lemma {:induction false} NoneLost(cls: int, ops: seq<Op>, n: nat)
    requires GoodOps(cls, ops)
    ensures |OpsAsRead(cls, ops, n)| == |Kept(cls, ops)|
    ensures forall i :: 0 <= i < |Kept(cls, ops)| ==>
              CameBack(cls, Kept(cls, ops)[i], OpsAsRead(cls, ops, n)[i], n + i)
  {
    hide *;
    if ops == [] {
      NothingRead(cls, n);
    } else {
      ReadStep(cls, ops, n);
      if Known(cls, ops[0].num) {
        OneCameBack(cls, ops[0], n);
        NoneLost(cls, ops[1..], n + 1);
        var k, r := Kept(cls, ops[1..]), OpsAsRead(cls, ops[1..], n + 1);
        forall i | 0 <= i < |k| + 1 ensures CameBack(cls, ([ops[0]] + k)[i], ([OpAsRead(cls, ops[0], n)] + r)[i], n + i) {
          if i > 0 { assert CameBack(cls, k[i - 1], r[i - 1], n + 1 + (i - 1)); }
        }
      } else {
        NoneLost(cls, ops[1..], n);
      }
    }
  }

  lemma NothingRead(cls: int, n: nat)
    ensures OpsAsRead(cls, [], n) == [] && Kept(cls, []) == []
  {
  }

  lemma ReadStep(cls: int, ops: seq<Op>, n: nat)
    requires GoodOps(cls, ops) && ops != []
    ensures GoodOps(cls, ops[1..]) && WellFormed(cls, ops[0])
    ensures Known(cls, ops[0].num) ==>
              && Written(cls, ops[0].num).Some? && Kept(cls, ops) == [ops[0]] + Kept(cls, ops[1..])
              && OpsAsRead(cls, ops, n) == [OpAsRead(cls, ops[0], n)] + OpsAsRead(cls, ops[1..], n + 1)
    ensures !Known(cls, ops[0].num) ==>
              Kept(cls, ops) == Kept(cls, ops[1..]) && OpsAsRead(cls, ops, n) == OpsAsRead(cls, ops[1..], n)
  {
    assert WellFormed(cls, ops[0]);
    WriterComplete(cls, ops[0].num);
    hide Known;
    hide Written;
    hide OpAsRead;
    hide WellFormed;
  }

  /** A group of declared operations comes back list for list and operation for operation. */
  lemma GroupComplete(g: FileGroup, num: nat, t: WorkerType)
    requires GoodGroup(g)
    requires forall j, i :: 0 <= j < |g.lists| && 0 <= i < |g.lists[j].ops| ==>
               Known(g.lists[j].opType, g.lists[j].ops[i].num)
    ensures var r := GroupAsRead(g, num, t);
            && r.index == num && |r.lists| == |g.lists|
            && forall j :: 0 <= j < |g.lists| ==>
                 var f, l := g.lists[j], r.lists[j];
                 && l.path == f.path && l.fileType == f.fileType && l.isNew == f.isNew && l.opType == f.opType
                 && l.opsIndex == j && l.opListType == t && |l.ops| == |f.ops|
                 && (l.isNeedOpen == 1 <==> f.opType == OPENED_DIR_OP || f.opType == OPENED_FILE_OP)
                 && forall i :: 0 <= i < |f.ops| ==> CameBack(f.opType, f.ops[i], l.ops[i], i)
  {
    hide CameBack;
    hide Known;
    hide OpsAsRead;
    forall j | 0 <= j < |g.lists|
      ensures var f, l := g.lists[j], GroupAsRead(g, num, t).lists[j];
              |l.ops| == |f.ops| && forall i :: 0 <= i < |f.ops| ==> CameBack(f.opType, f.ops[i], l.ops[i], i) {
      var f := g.lists[j];
      assert GoodList(f);
      KeptAll(f.opType, f.ops);
      NoneLost(f.opType, f.ops, 0);
      assert GroupAsRead(g, num, t).lists[j].ops == OpsAsRead(f.opType, f.ops, 0);
    }
  }
}
