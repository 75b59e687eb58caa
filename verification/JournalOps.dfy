/** One operation as a journal line: analyze_string_write (analyze.c:19-401) and
    cut_string_operation (analyze.c:788-1291). */
module JournalOps {
  import opened JournalText
  import opened Wrappers

  const OPENED_DIR_OP := 0
  const NO_OPEN_DIR_OP := 1
  const OPENED_FILE_OP := 2
  const NO_OPEN_FILE_OP := 3
  const SYMLINK_OP := 4
  const RENAME_DIR_OP := 2
  const RENAME_FILE_OP := 1

  /** The C types of arguments: a string, int, a 32-bit unsigned type, and a 64-bit signed type. */
  datatype Kind = Str | I32 | U32 | I64
  datatype Field = Field(key: string, kind: Kind)
  datatype Value = S(s: string) | N(n: int)

  /** `index` is op_index; `args` are the members of the union that belong to the operation. */
  datatype Op = Op(num: int, index: int, args: seq<Value>)

  const MODE := [Field("mode", U32)]
  const ACCESS := [Field("mode", I32)]
  const OWNER := [Field("owner", U32), Field("group", U32)]
  const TIME := [Field("tv_sec", I64), Field("tv_usec", I64)]
  const NEWPATH := [Field("newpath", Str)]
  const XATTR := [Field("name", Str), Field("value", Str), Field("flags", I32)]
  const XNAME := [Field("name", Str)]

  datatype Format = Format(name: string, fields: seq<Field>)

  /** What analyze_string_write prints for an operation of a class; nothing for unknown ones. */
  function Written(cls: int, num: int): Option<Format> {
    if cls == OPENED_DIR_OP then WrittenOpenDir(num)
    else if cls == NO_OPEN_DIR_OP then WrittenDir(num)
    else if cls == OPENED_FILE_OP then WrittenOpenFile(num)
    else if cls == NO_OPEN_FILE_OP then WrittenFile(num)
    else if cls == SYMLINK_OP then WrittenSymlink(num)
    else None
  }

  /** analyze.c:38-103. */
  function WrittenOpenDir(num: int): Option<Format> {
    match num
    case 1 => Some(Format("fsync", []))
    case 2 => Some(Format("fsetxattr", XATTR))
    case 3 => Some(Format("fgetxattr", XNAME))
    case 4 => Some(Format("fremovexattr", XNAME))
    case 5 => Some(Format("readdir", []))
    case 6 => Some(Format("fchown", OWNER))
    case 7 => Some(Format("fchmod", MODE))
    case 8 => Some(Format("futimes", TIME))
    case 9 => Some(Format("fstat", []))
    case _ => None
  }

  /** analyze.c:105-188. */
  function WrittenDir(num: int): Option<Format> {
    match num
    case 1 => Some(Format("access", ACCESS))
    case 2 => Some(Format("rename", NEWPATH))
    case 3 => Some(Format("symlink", NEWPATH))
    case 4 => Some(Format("setxattr", XATTR))
    case 5 => Some(Format("getxattr", XNAME))
    case 6 => Some(Format("removexattr", XNAME))
    case 7 => Some(Format("chown", OWNER))
    case 8 => Some(Format("chmod", MODE))
    case 9 => Some(Format("utimes", TIME))
    case 10 => Some(Format("rmdir", []))
    case 11 => Some(Format("stat", []))
    case 12 => Some(Format("statfs", []))
    case _ => None
  }

  /** analyze.c:190-280. */
  function WrittenOpenFile(num: int): Option<Format> {
    match num
    case 1 => Some(Format("pwritev", [Field("offset", I64)]))
    case 2 => Some(Format("preadv", [Field("offset", I64)]))
    case 3 => Some(Format("fallocate", [Field("mode", I32), Field("offset", I64), Field("len", I64)]))
    case 4 => Some(Format("ftruncate", [Field("length", I64)]))
    case 5 => Some(Format("fsync", []))
    case 6 => Some(Format("fsetxattr", XATTR))
    case 7 => Some(Format("fgetxattr", XNAME))
    case 8 => Some(Format("fremovexattr", XNAME))
    case 9 => Some(Format("lk", [Field("operation", I32)]))
    case 10 => Some(Format("fchown", OWNER))
    case 11 => Some(Format("fchmod", MODE))
    case 12 => Some(Format("futimes", TIME))
    case 13 => Some(Format("fstat", []))
    case _ => None
  }

  /** analyze.c:282-377. */
  function WrittenFile(num: int): Option<Format> {
    match num
    case 1 => Some(Format("rename", NEWPATH))
    case 2 => Some(Format("symlink", NEWPATH))
    case 3 => Some(Format("link", NEWPATH))
    case 4 => Some(Format("truncate", [Field("length", I64)]))
    case 5 => Some(Format("setxattr", XATTR))
    case 6 => Some(Format("getxattr", XNAME))
    case 7 => Some(Format("removexattr", XNAME))
    case 8 => Some(Format("access", ACCESS))
    case 9 => Some(Format("chown", OWNER))
    case 10 => Some(Format("chmod", MODE))
    case 11 => Some(Format("utimes", TIME))
    case 12 => Some(Format("stat", []))
    case 13 => Some(Format("unlink", []))
    case 14 => Some(Format("statfs", []))
    case _ => None
  }

  /** analyze.c:379-398. */
  function WrittenSymlink(num: int): Option<Format> {
    match num
    case 1 => Some(Format("readlink", []))
    case 2 => Some(Format("unlink", []))
    case _ => None
  }

  /** What cut_string_operation takes a name for: the operation, and the kinds of the fields it reads. */
  datatype Shape = Shape(num: int, kinds: seq<Kind>)

  const UNKNOWN := Shape(0, [])

  function Read(cls: int, name: string): Shape {
    if cls == OPENED_DIR_OP then ReadOpenDir(name)
    else if cls == NO_OPEN_DIR_OP then ReadDir(name)
    else if cls == OPENED_FILE_OP then ReadOpenFile(name)
    else if cls == NO_OPEN_FILE_OP then ReadFile(name)
    else if cls == SYMLINK_OP then ReadSymlink(name)
    else UNKNOWN
  }

  /** analyze.c:802-889. */
  function ReadOpenDir(name: string): Shape {
    if name == "fsync" then Shape(1, [])
    else if name == "fsetxattr" then Shape(2, [Str, Str, I32])
    else if name == "fgetxattr" then Shape(3, [Str])
    else if name == "fremovexattr" then Shape(4, [Str])
    else if name == "readdir" then Shape(5, [])
    else if name == "fchown" then Shape(6, [U32, U32])
    else if name == "fchmod" then Shape(7, [U32])
    else if name == "futimes" then Shape(8, [I64, I64])
    else if name == "fstat" then Shape(9, [])
    else UNKNOWN
  }

  /** analyze.c:890-1005.  A rename gets the number it has among the file operations. */
  function ReadDir(name: string): Shape {
    if name == "access" then Shape(1, [I32])
    else if name == "rename" then Shape(RENAME_FILE_OP, [Str])
    else if name == "symlink" then Shape(3, [Str])
    else if name == "setxattr" then Shape(4, [Str, Str, I32])
    else if name == "getxattr" then Shape(5, [Str])
    else if name == "removexattr" then Shape(6, [Str])
    else if name == "chown" then Shape(7, [U32, U32])
    else if name == "chmod" then Shape(8, [U32])
    else if name == "utimes" then Shape(9, [I64, I64])
    else if name == "rmdir" then Shape(10, [])
    else if name == "stat" then Shape(11, [])
    else if name == "statfs" then Shape(12, [])
    else UNKNOWN
  }

  /** analyze.c:1006-1146. */
  function ReadOpenFile(name: string): Shape {
    if name == "pwritev" then Shape(1, [I64])
    else if name == "preadv" then Shape(2, [I64])
    else if name == "fallocate" then Shape(3, [I32, I64, I64])
    else if name == "ftruncate" then Shape(4, [I64])
    else if name == "fsync" then Shape(5, [])
    else if name == "fsetxattr" then Shape(6, [Str, Str, I32])
    else if name == "fgetxattr" then Shape(7, [Str])
    else if name == "fremovexattr" then Shape(8, [Str])
    else if name == "lk" then Shape(9, [I32])
    else if name == "fchown" then Shape(10, [U32, U32])
    else if name == "fchmod" then Shape(11, [U32])
    else if name == "futimes" then Shape(12, [I64, I64])
    else if name == "fstat" then Shape(13, [])
    else UNKNOWN
  }

  /** analyze.c:1147-1280. */
  function ReadFile(name: string): Shape {
    if name == "rename" then Shape(RENAME_FILE_OP, [Str])
    else if name == "symlink" then Shape(2, [Str])
    else if name == "link" then Shape(3, [Str])
    else if name == "truncate" then Shape(4, [I64])
    else if name == "setxattr" then Shape(5, [Str, Str, I32])
    else if name == "getxattr" then Shape(6, [Str])
    else if name == "removexattr" then Shape(7, [Str])
    else if name == "access" then Shape(8, [I32])
    else if name == "chown" then Shape(9, [U32, U32])
    else if name == "chmod" then Shape(10, [U32])
    else if name == "utimes" then Shape(11, [I64, I64])
    else if name == "stat" then Shape(12, [])
    else if name == "unlink" then Shape(13, [])
    else if name == "statfs" then Shape(14, [])
    else UNKNOWN
  }

  /** analyze.c:1281-1288. */
  function ReadSymlink(name: string): Shape {
    if name == "readlink" then Shape(1, []) else if name == "unlink" then Shape(2, []) else UNKNOWN
  }

  function Kinds(fields: seq<Field>): (ks: seq<Kind>)
    ensures |ks| == |fields|
  {
    seq(|fields|, i requires 0 <= i < |fields| => fields[i].kind)
  }

  /** The two switches agree, except on the rename of a directory. */
  lemma TablesAgree(cls: int, num: int)
    requires Written(cls, num).Some?
    ensures var f := Written(cls, num).value;
            Read(cls, f.name) == Shape(if cls == NO_OPEN_DIR_OP && num == RENAME_DIR_OP then RENAME_FILE_OP else num, Kinds(f.fields))
  {
    if cls == OPENED_DIR_OP { AgreeOpenDir(num); }
    else if cls == NO_OPEN_DIR_OP { AgreeDir(num); }
    else if cls == OPENED_FILE_OP { AgreeOpenFile(num); }
    else if cls == NO_OPEN_FILE_OP { AgreeFile(num); }
    else { AgreeSymlink(num); }
  }

  lemma AgreeOpenDir(num: int)
    requires WrittenOpenDir(num).Some?
    ensures ReadOpenDir(WrittenOpenDir(num).value.name) == Shape(num, Kinds(WrittenOpenDir(num).value.fields))
  {
  }

  lemma AgreeDir(num: int)
    requires WrittenDir(num).Some?
    ensures ReadDir(WrittenDir(num).value.name)
         == Shape(if num == RENAME_DIR_OP then RENAME_FILE_OP else num, Kinds(WrittenDir(num).value.fields))
  {
  }

  lemma AgreeOpenFile(num: int)
    requires WrittenOpenFile(num).Some?
    ensures ReadOpenFile(WrittenOpenFile(num).value.name) == Shape(num, Kinds(WrittenOpenFile(num).value.fields))
  {
  }

  lemma AgreeFile(num: int)
    requires WrittenFile(num).Some?
    ensures ReadFile(WrittenFile(num).value.name) == Shape(num, Kinds(WrittenFile(num).value.fields))
  {
  }

  lemma AgreeSymlink(num: int)
    requires WrittenSymlink(num).Some?
    ensures ReadSymlink(WrittenSymlink(num).value.name) == Shape(num, Kinds(WrittenSymlink(num).value.fields))
  {
  }

  /** Strings that survive the line format. */
  predicate Clean(s: string) { Free(s, ' ') && Free(s, '\n') }

  /** A value of the C type. */
  predicate HasKind(v: Value, k: Kind) {
    match k
    case Str => v.S? && Clean(v.s)
    case I32 => v.N? && INT_MIN <= v.n <= INT_MAX
    case U32 => v.N? && 0 <= v.n < UINT_SPAN
    case I64 => v.N? && -0x8000_0000_0000_0000 <= v.n < 0x8000_0000_0000_0000
  }

  function Shown(v: Value): string { if v.S? then v.s else Print(v.n) }

  predicate Fit(fields: seq<Field>, args: seq<Value>) {
    |fields| <= |args| && forall i :: 0 <= i < |fields| ==> HasKind(args[i], fields[i].kind)
  }

  /** Known operations with arguments of their C types. */
  predicate WellFormed(cls: int, op: Op) {
    Written(cls, op.num).Some? ==> Fit(Written(cls, op.num).value.fields, op.args)
  }

  function ArgsText(fields: seq<Field>, args: seq<Value>): string
    requires |fields| <= |args|
  {
    if fields == [] then ""
    else fields[0].key + "=" + Shown(args[0]) + " " + ArgsText(fields[1..], args[1..])
  }

  function OpInfo(g: int, c: int, i: int): string {
    "op_info=(" + Print(g) + "," + Print(c) + "," + Print(i) + ")"
  }

  /** The line of an operation, without its newline; unknown operations have none. */
  function OpLine(cls: int, op: Op, g: int, c: int): (line: Option<string>)
    requires WellFormed(cls, op)
    ensures line.Some? <==> Written(cls, op.num).Some?
  {
    match Written(cls, op.num)
    case None => None
    case Some(f) => Some(f.name + " " + ArgsText(f.fields, op.args) + OpInfo(g, c, op.index))
  }

  /** The value that a field text gives. */
  function Parsed(k: Kind, p: string): Value {
    match k
    case Str => S(p)
    case U32 => N(ToUint32(Atoi(p)))
    case _ => N(Atoi(p))
  }

  /** The fields read one after the other; None where the program would follow a null pointer. */
  function ReadArgs(kinds: seq<Kind>, rest: string): Option<seq<Value>> {
    if kinds == [] then Some([])
    else
      var t := Strtok(rest);
      if t.None? then None
      else
        var p := AfterEq(t.value.text);
        var more := ReadArgs(kinds[1..], t.value.rest);
        if p.None? || more.None? then None else Some([Parsed(kinds[0], p.value)] + more.value)
  }

  /** The operation that a line is taken for. */
  function ReadOp(line: string, cls: int, index: int): Option<Op> {
    var t := Strtok(line);
    if t.None? then None
    else
      var shape := Read(cls, t.value.text);
      var args := ReadArgs(shape.kinds, t.value.rest);
      if args.None? then None else Some(Op(shape.num, index, args.value))
  }

  function Continued(args: seq<Value>, more: Option<seq<Value>>): Option<seq<Value>> {
    if more.None? then None else Some(args + more.value)
  }

  lemma ContinuedNone(more: Option<seq<Value>>)
    ensures Continued([], more) == more
  {
    match more
    case None =>
    case Some(m) =>
      assert [] + m == m;
  }

  lemma ContinuedStep(args: seq<Value>, v: Value, more: Option<seq<Value>>)
    ensures more.None? ==> Continued(args + [v], more) == None
    ensures more.Some? ==> Continued(args + [v], more) == Continued(args, Some([v] + more.value))
  {
    if more.Some? {
      assert (args + [v]) + more.value == args + ([v] + more.value);
    }
  }

  /** cut_string_operation, analyze.c:788-1291. */
  method CutStringOperation(line: string, cls: int, index: int) returns (op: Option<Op>)
    ensures op == ReadOp(line, cls, index)
  {
    var fnName := Strtok(line);
    if fnName.None? {
      return None;
    }
    var shape, tmpPtr := Read(cls, fnName.value.text), fnName.value.rest;
    ghost var all := ReadArgs(shape.kinds, tmpPtr);
    var args: seq<Value> := [];
    var i := 0;
    assert shape.kinds[0..] == shape.kinds;
    ContinuedNone(all);
    hide Read;
    while i < |shape.kinds|
      invariant 0 <= i <= |shape.kinds|
      invariant all == Continued(args, ReadArgs(shape.kinds[i..], tmpPtr))
    {
      var tmp := Strtok(tmpPtr);
      if tmp.None? {
        return None;
      }
      var p := AfterEq(tmp.value.text);
      if p.None? {
        return None;
      }
      assert shape.kinds[i..][1..] == shape.kinds[i + 1..];
      ContinuedStep(args, Parsed(shape.kinds[i], p.value), ReadArgs(shape.kinds[i + 1..], tmp.value.rest));
      args, tmpPtr := args + [Parsed(shape.kinds[i], p.value)], tmp.value.rest;
      i := i + 1;
    }
    assert shape.kinds[i..] == [] && args + [] == args;
    op := Some(Op(shape.num, index, args));
  }

  /** What a value becomes on its way through the journal: a 64-bit number is cut to an int. */
  function AsRead(v: Value, k: Kind): (r: Value)
    requires HasKind(v, k)
    ensures r == v <==> (k == I64 ==> INT_MIN <= v.n <= INT_MAX)
  {
    if k == I64 then N(ToInt32(v.n)) else v
  }

  function AllAsRead(fields: seq<Field>, args: seq<Value>): (r: seq<Value>)
    requires Fit(fields, args)
    ensures |r| == |fields|
  {
    seq(|fields|, i requires 0 <= i < |fields| => AsRead(args[i], fields[i].kind))
  }

  lemma ParsedShown(v: Value, k: Kind)
    requires HasKind(v, k)
    ensures Parsed(k, Shown(v)) == AsRead(v, k)
  {
    if v.N? {
      AtoiPrint(v.n, "");
      assert Print(v.n) + "" == Print(v.n);
    }
  }

  lemma {:induction false} DigitsFree(n: nat, c: char)
    requires c < '0' && c != '-'
    ensures Free(Digits(n), c)
  {
  }

  lemma ShownFree(v: Value, k: Kind)
    requires HasKind(v, k)
    ensures Free(Shown(v), ' ') && Free(Shown(v), '\n')
  {
    if v.N? {
      PrintFree(v.n, ' ');
      PrintFree(v.n, '\n');
    }
  }

  lemma PrintFree(n: int, c: char)
    requires c < '0' && c != '-'
    ensures Free(Print(n), c)
  {
    DigitsFree(if n < 0 then -n else n, c);
  }

  /** A name or key: neither a blank nor '=' nor a newline, and not like a frame. */
  predicate Word(s: string) { s != "" && forall i :: 0 <= i < |s| ==> '_' <= s[i] }

  predicate Keys(fields: seq<Field>) { forall i :: 0 <= i < |fields| ==> Word(fields[i].key) }

  lemma FieldToken(f: Field, arg: Value, more: string)
    requires HasKind(arg, f.kind) && Word(f.key)
    ensures var token := f.key + "=" + Shown(arg);
            Strtok(token + " " + more) == Some(Token(token, more)) && AfterEq(token) == Some(Shown(arg))
    ensures Parsed(f.kind, Shown(arg)) == AsRead(arg, f.kind)
  {
    var token := f.key + "=" + Shown(arg);
    ShownFree(arg, f.kind);
    assert Free(token, ' ') && Free(f.key, '=');
    hide Shown;
    hide Free;
    StrtokFirst(token, more);
    AfterEqKey(f.key, Shown(arg));
    ParsedShown(arg, f.kind);
  }

  lemma {:induction false} ReadArgsText(fields: seq<Field>, args: seq<Value>, rest: string)
    requires Fit(fields, args) && Keys(fields)
    ensures ReadArgs(Kinds(fields), ArgsText(fields, args) + rest) == Some(AllAsRead(fields, args))
  {
    if fields == [] {
      assert ArgsText(fields, args) + rest == rest;
    } else {
      var f, more := fields[0], ArgsText(fields[1..], args[1..]) + rest;
      ArgsTextStep(fields, args, rest);
      ArgsStep(fields, args);
      hide ArgsText;
      hide Fit;
      hide Keys;
      hide Kinds;
      hide AllAsRead;
      hide HasKind;
      hide Word;
      hide Strtok;
      hide AfterEq;
      hide Parsed;
      hide AsRead;
      hide Shown;
      FieldToken(f, args[0], more);
      ReadArgsText(fields[1..], args[1..], rest);
    }
  }

  lemma ArgsTextStep(fields: seq<Field>, args: seq<Value>, rest: string)
    requires |fields| <= |args| && fields != []
    ensures ArgsText(fields, args) + rest
         == (fields[0].key + "=" + Shown(args[0])) + " " + (ArgsText(fields[1..], args[1..]) + rest)
  {
    hide Shown;
  }

  lemma ArgsStep(fields: seq<Field>, args: seq<Value>)
    requires Fit(fields, args) && Keys(fields) && fields != []
    ensures Fit(fields[1..], args[1..]) && Keys(fields[1..]) && HasKind(args[0], fields[0].kind) && Word(fields[0].key)
    ensures Kinds(fields)[0] == fields[0].kind && Kinds(fields)[1..] == Kinds(fields[1..])
    ensures AllAsRead(fields, args) == [AsRead(args[0], fields[0].kind)] + AllAsRead(fields[1..], args[1..])
  {
  }

  /** The operation that comes back, under a new index: 64-bit numbers cut to int, members that have no
      field (the second timeval) lost, the rename of a directory under the number of a file's. */
  function OpAsRead(cls: int, op: Op, index: int): Op
    requires Written(cls, op.num).Some? && WellFormed(cls, op)
  {
    Op(if cls == NO_OPEN_DIR_OP && op.num == RENAME_DIR_OP then RENAME_FILE_OP else op.num,
       index, AllAsRead(Written(cls, op.num).value.fields, op.args))
  }

  /** Names and keys of a format are words of the line, and a name does not look like a frame. */
  predicate Plain(f: Format) { Keys(f.fields) && Word(f.name) }

  lemma WordsOfKeys()
    ensures Word("mode") && Word("owner") && Word("group") && Word("tv_sec") && Word("tv_usec") && Word("newpath")
            && Word("name") && Word("value") && Word("flags") && Word("offset") && Word("length") && Word("operation")
            && Word("len")
  {
  }

  lemma WordsOpenDir()
    ensures Word("fsync") && Word("fsetxattr") && Word("fgetxattr") && Word("fremovexattr") &&
            Word("readdir") && Word("fchown") && Word("fchmod") && Word("futimes") && Word("fstat")
  {
  }

  lemma FormatOpenDir(num: int)
    requires WrittenOpenDir(num).Some?
    ensures Plain(WrittenOpenDir(num).value)
  {
    WordsOfKeys();
    WordsOpenDir();
    hide Word;
  }

  lemma WordsDir()
    ensures Word("access") && Word("rename") && Word("symlink") && Word("setxattr") && Word("getxattr") &&
            Word("removexattr") && Word("chown") && Word("chmod") && Word("utimes") && Word("rmdir") &&
            Word("stat") && Word("statfs")
  {
  }

  lemma FormatDir(num: int)
    requires WrittenDir(num).Some?
    ensures Plain(WrittenDir(num).value)
  {
    WordsOfKeys();
    WordsDir();
    hide Word;
  }

  lemma WordsOpenFile()
    ensures Word("pwritev") && Word("preadv") && Word("fallocate") && Word("ftruncate") && Word("fsync") &&
            Word("fsetxattr") && Word("fgetxattr") && Word("fremovexattr") && Word("lk") && Word("fchown") &&
            Word("fchmod") && Word("futimes") && Word("fstat")
  {
  }

  lemma FormatOpenFile(num: int)
    requires WrittenOpenFile(num).Some?
    ensures Plain(WrittenOpenFile(num).value)
  {
    WordsOfKeys();
    WordsOpenFile();
    hide Word;
  }

  lemma WordsFile()
    ensures Word("rename") && Word("symlink") && Word("link") && Word("truncate") && Word("setxattr") &&
            Word("getxattr") && Word("removexattr") && Word("access") && Word("chown") && Word("chmod") &&
            Word("utimes") && Word("stat") && Word("unlink") && Word("statfs")
  {
  }

  lemma FormatFile(num: int)
    requires WrittenFile(num).Some?
    ensures Plain(WrittenFile(num).value)
  {
    WordsOfKeys();
    WordsFile();
    hide Word;
  }

  lemma WordsSymlink()
    ensures Word("readlink") && Word("unlink")
  {
  }

  lemma FormatSymlink(num: int)
    requires WrittenSymlink(num).Some?
    ensures Plain(WrittenSymlink(num).value)
  {
    WordsOfKeys();
    WordsSymlink();
    hide Word;
  }

  lemma FormatPlain(cls: int, num: int)
    requires Written(cls, num).Some?
    ensures Plain(Written(cls, num).value)
  {
    hide Plain;
    if cls == OPENED_DIR_OP { FormatOpenDir(num); }
    else if cls == NO_OPEN_DIR_OP { FormatDir(num); }
    else if cls == OPENED_FILE_OP { FormatOpenFile(num); }
    else if cls == NO_OPEN_FILE_OP { FormatFile(num); }
    else { FormatSymlink(num); }
  }

  lemma OpLineText(cls: int, op: Op, g: int, c: int)
    requires Written(cls, op.num).Some? && WellFormed(cls, op)
    ensures var f := Written(cls, op.num).value;
            OpLine(cls, op, g, c).value + "\n" == f.name + " " + (ArgsText(f.fields, op.args) + (OpInfo(g, c, op.index) + "\n"))
  {
    hide Written;
    hide ArgsText;
    hide OpInfo;
  }

  /** Reading the line of an operation gives the operation. */
  lemma OpRoundTrip(cls: int, op: Op, g: int, c: int, index: int)
    requires Written(cls, op.num).Some? && WellFormed(cls, op)
    ensures ReadOp(OpLine(cls, op, g, c).value + "\n", cls, index) == Some(OpAsRead(cls, op, index))
  {
    FormatPlain(cls, op.num);
    TablesAgree(cls, op.num);
    OpLineText(cls, op, g, c);
    var f := Written(cls, op.num).value;
    assert Fit(f.fields, op.args);
    hide Written;
    hide Read;
    hide OpLine;
    hide OpInfo;
    hide ArgsText;
    hide Strtok;
    hide ReadArgs;
    hide Keys;
    hide Fit;
    var text, rest := ArgsText(f.fields, op.args), OpInfo(g, c, op.index) + "\n";
    assert Free(f.name, ' ');
    StrtokFirst(f.name, text + rest);
    ReadArgsText(f.fields, op.args, rest);
  }

  /** An operation comes back unchanged exactly if it is not the rename of a directory, all its members
      have fields, and its 64-bit numbers are ints. */
  lemma OpUnchanged(cls: int, op: Op)
    requires Written(cls, op.num).Some? && WellFormed(cls, op)
    ensures var fields := Written(cls, op.num).value.fields;
            OpAsRead(cls, op, op.index) == op
            <==> && !(cls == NO_OPEN_DIR_OP && op.num == RENAME_DIR_OP) && |op.args| == |fields|
                 && forall i :: 0 <= i < |fields| && fields[i].kind == I64 ==> INT_MIN <= op.args[i].n <= INT_MAX
  {
    var fields := Written(cls, op.num).value.fields;
    var r := AllAsRead(fields, op.args);
    if OpAsRead(cls, op, op.index) == op {
      forall i | 0 <= i < |fields| && fields[i].kind == I64 ensures INT_MIN <= op.args[i].n <= INT_MAX {
        assert r[i] == op.args[i];
      }
    }
  }

  /** The rename of a directory comes back as an access check. */
  lemma DirRenameChanges()
    ensures var op := Op(RENAME_DIR_OP, 0, [S("a")]);
            WellFormed(NO_OPEN_DIR_OP, op) && OpAsRead(NO_OPEN_DIR_OP, op, 0).num == 1
            && WrittenDir(1) == Some(Format("access", ACCESS))
  {
  }

  lemma {:induction false} ArgsTextFree(fields: seq<Field>, args: seq<Value>)
    requires Fit(fields, args) && Keys(fields)
    ensures Free(ArgsText(fields, args), '\n')
  {
    if fields != [] {
      ShownFree(args[0], fields[0].kind);
      ArgsTextFree(fields[1..], args[1..]);
    }
  }

  lemma FreeConcat(a: string, b: string, c: char)
    requires Free(a, c) && Free(b, c)
    ensures Free(a + b, c)
  {
  }

  lemma OpInfoFree(g: int, c: int, i: int)
    ensures Free(OpInfo(g, c, i), '\n')
  {
    PrintFree(g, '\n');
    PrintFree(c, '\n');
    PrintFree(i, '\n');
    hide Print;
  }

  /** An operation takes one line, which is no frame. */
  lemma OpLineFree(cls: int, op: Op, g: int, c: int)
    requires Written(cls, op.num).Some? && WellFormed(cls, op)
    ensures var l := OpLine(cls, op, g, c).value; Free(l, '\n') && l != "" && l[0] >= '_'
  {
    FormatPlain(cls, op.num);
    var f := Written(cls, op.num).value;
    ArgsTextFree(f.fields, op.args);
    OpInfoFree(g, c, op.index);
    hide Written;
    hide OpInfo;
    hide ArgsText;
    hide Fit;
    hide Keys;
    assert Free(f.name + " ", '\n');
    assert f.name[0] >= '_';
    hide Free;
    hide Word;
    FreeConcat(f.name + " ", ArgsText(f.fields, op.args), '\n');
    FreeConcat(f.name + " " + ArgsText(f.fields, op.args), OpInfo(g, c, op.index), '\n');
  }
}
