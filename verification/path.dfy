/** Resolving a '/'-separated path to an inode, as the build without the
    standard library does it: start at the root node id, and for every part
    that is not empty and not ".", look the name up in the blocks of the
    current inode; a name found nowhere ends the walk with "not found". Then
    opening a path as a file. */
module PathWalk {
  import opened Ints
  import opened Errors
  import opened Types
  import opened FileSystem
  import opened Blocks
  import opened IntendedBlocks

  // ---------------------------------------------------------------------
  // Splitting a path

  /** `str::split('/')`: the pieces between separators, empty ones
      included, so `n` separators give `n + 1` pieces. */
  function Split(path: string): (parts: seq<string>)
    ensures |parts| >= 1
    ensures forall i :: 0 <= i < |parts| ==> '/' !in parts[i]
    decreases |path|
  {
    if |path| == 0 then [""]
    else if path[0] == '/' then [""] + Split(path[1..])
    else
      var rest := Split(path[1..]);
      [[path[0]] + rest[0]] + rest[1..]
  }

  /** The pieces put back together with '/' between them. */
  function Join(parts: seq<string>): string
    requires |parts| >= 1
    decreases |parts|
  {
    if |parts| == 1 then parts[0] else parts[0] + "/" + Join(parts[1..])
  }

  /** Splitting loses nothing: the pieces join back to the path. */
  lemma {:induction false} JoinSplit(path: string)
    ensures Join(Split(path)) == path
    decreases |path|
  {
    if |path| > 0 {
      var rest := Split(path[1..]);
      JoinSplit(path[1..]);
      if path[0] == '/' {
        assert path == "/" + path[1..];
      } else if |rest| == 1 {
        assert path == [path[0]] + rest[0];
      } else {
        assert Split(path)[1..] == rest[1..];
        assert Join(Split(path)) == [path[0]] + rest[0] + "/" + Join(rest[1..]);
        assert path == [path[0]] + path[1..];
      }
    }
  }

  lemma SplitNoSeparator(s: string)
    requires '/' !in s
    ensures Split(s) == [s]
    decreases |s|
  {
    if |s| > 0 {
      assert '/' !in s[1..] by {
        forall c | c in s[1..] ensures c != '/' { assert c in s; }
      }
      SplitNoSeparator(s[1..]);
      assert [s[0]] + s[1..] == s;
    }
  }

  lemma SplitSeparator(a: string, b: string)
    requires '/' !in a
    ensures Split(a + "/" + b) == [a] + Split(b)
    decreases |a|
  {
    if |a| == 0 {
      assert a + "/" + b == "/" + b;
      assert ("/" + b)[1..] == b;
    } else {
      assert '/' !in a[1..] by {
        forall c | c in a[1..] ensures c != '/' { assert c in a; }
      }
      SplitSeparator(a[1..], b);
      var s := a + "/" + b;
      assert s[0] == a[0] && s[1..] == a[1..] + "/" + b;
      assert [a[0]] + a[1..] == a;
    }
  }

  /** Joining loses nothing either: pieces without separators come back
      unchanged from splitting their join. */
  lemma {:induction false} SplitJoin(parts: seq<string>)
    requires |parts| >= 1 && forall i :: 0 <= i < |parts| ==> '/' !in parts[i]
    ensures Split(Join(parts)) == parts
    decreases |parts|
  {
    if |parts| == 1 {
      SplitNoSeparator(parts[0]);
    } else {
      SplitJoin(parts[1..]);
      SplitSeparator(parts[0], Join(parts[1..]));
      assert [parts[0]] + parts[1..] == parts;
    }
  }

  lemma {:induction false} JoinAppend(p: seq<string>, q: seq<string>)
    requires |p| >= 1 && |q| >= 1
    ensures Join(p + q) == Join(p) + "/" + Join(q)
    decreases |p|
  {
    if |p| == 1 {
      assert (p + q)[1..] == q;
    } else {
      JoinAppend(p[1..], q);
      assert (p + q)[1..] == p[1..] + q;
    }
  }

  /** The pieces of `a + "/" + b` are the pieces of `a` followed by those
      of `b`. */
  lemma SplitConcat(a: string, b: string)
    ensures Split(a + "/" + b) == Split(a) + Split(b)
  {
    var p, q := Split(a), Split(b);
    JoinSplit(a);
    JoinSplit(b);
    JoinAppend(p, q);
    assert Join(p + q) == a + "/" + b;
    SplitJoin(p + q);
  }

  // ---------------------------------------------------------------------
  // Looking a name up in a directory

  /** The answers of a directory-entry lookup, one per block, in block
      order: `Ok(Some(nid))` found, `Ok(None)` not in this block, `Err`
      the block could not be read or parsed. */
  type Answer = Result<Option<uint64>>

  /** The inner loop of the walk: the first answer other than "not in this
      block" decides; when every block says "not here", so does the scan. */
  function FirstAnswer(answers: seq<Answer>): (r: Answer)
    ensures r == Ok(None) <==> forall j :: 0 <= j < |answers| ==> answers[j] == Ok(None)
    ensures r != Ok(None) ==>
              exists k :: 0 <= k < |answers| && answers[k] == r && forall j :: 0 <= j < k ==> answers[j] == Ok(None)
  {
    if |answers| == 0 then Ok(None)
    else if answers[0] != Ok(None) then answers[0]
    else
      var r := FirstAnswer(answers[1..]);
      assert forall j :: 1 <= j < |answers| ==> answers[j] == answers[1..][j - 1];
      r
  }

  /** Which length the scan fetches directory blocks with: the program's
      (`get_inode_block` as written), or the corrected chunk-based length. */
  datatype BlockRule = AsWritten | Corrected

  /** Block `offset` of `dir` under `rule`. The two rules read the same
      bytes except in chunk-based directories. */
  function DirBlock(fs: EroFS, rule: BlockRule, dir: Inode, offset: uint64): (r: Result<seq<byte>>)
    requires fs.Valid()
    ensures rule == AsWritten ==> r == GetInodeBlock(fs, dir, offset)
    ensures rule == Corrected ==> r == GetInodeBlockIntended(fs, dir, offset)
    ensures dir.DataLayout() != Ok(ChunkBased) ==> r == GetInodeBlock(fs, dir, offset)
  {
    match rule
    case AsWritten => GetInodeBlock(fs, dir, offset)
    case Corrected =>
      assert dir.DataLayout() != Ok(ChunkBased) ==> MapBlockIntended(fs, dir, offset) == MapBlock(fs, dir, offset);
      GetInodeBlockIntended(fs, dir, offset)
  }

  /** The offset of block `i` of `dir`; it fits in 64 bits because the
      block starts inside the data. */
  function DirBlockOffset(fs: EroFS, dir: Inode, i: nat): (o: uint64)
    requires fs.Valid() && i < BlockCount(fs, dir)
    ensures o == i * fs.blockSize && o < dir.DataSize()
  {
    DivCeilIndex(dir.DataSize(), fs.blockSize, i);
    i * fs.blockSize
  }

  /** Under the corrected rule, block `i` of a FlatPlain or chunk-based
      directory is its whole share of the data, so the scan sees every
      entry. As written, the chunk-based case fails this (`TailDirSecond`). */
  lemma CorrectedDirBlockCovers(fs: EroFS, dir: Inode, i: nat)
    requires fs.Valid() && i < BlockCount(fs, dir)
    requires dir.DataLayout() == Ok(FlatPlain) || dir.DataLayout() == Ok(ChunkBased)
    ensures var b := DirBlock(fs, Corrected, dir, DirBlockOffset(fs, dir, i));
            b.Ok? ==> |b.value| == Min(fs.blockSize, dir.DataSize() - i * fs.blockSize)
  {
    var o := DirBlockOffset(fs, dir, i);
    DivModUnique(o, fs.blockSize, i, 0);
    assert BlockStart(fs, o) == i * fs.blockSize;
  }

  /** Ask the directory-entry lookup about block `i` of `dir`. */
  function DirBlockLookup(fs: EroFS, rule: BlockRule, dir: Inode, name: string, i: nat): Answer
    requires fs.Valid() && i < BlockCount(fs, dir)
  {
    var block :- DirBlock(fs, rule, dir, DirBlockOffset(fs, dir, i));
    fs.codec.findNodeIdByName(name, block)
  }

  /** The answers of every block of `dir`, in block order. */
  function DirAnswers(fs: EroFS, rule: BlockRule, dir: Inode, name: string): (a: seq<Answer>)
    requires fs.Valid()
    ensures |a| == BlockCount(fs, dir)
    ensures forall j :: 0 <= j < |a| ==> a[j] == DirBlockLookup(fs, rule, dir, name, j)
  {
    seq(BlockCount(fs, dir), (j: int) requires 0 <= j < BlockCount(fs, dir) => DirBlockLookup(fs, rule, dir, name, j))
  }

  /** The block whose answer decides a lookup that found something or
      failed. */
  lemma DecidingBlock(fs: EroFS, rule: BlockRule, dir: Inode, name: string)
    requires fs.Valid() && FirstAnswer(DirAnswers(fs, rule, dir, name)) != Ok(None)
    ensures exists k :: 0 <= k < BlockCount(fs, dir) && DirBlockLookup(fs, rule, dir, name, k) == FirstAnswer(DirAnswers(fs, rule, dir, name)) &&
                        forall j :: 0 <= j < k ==> DirBlockLookup(fs, rule, dir, name, j) == Ok(None)
  {
    var a := DirAnswers(fs, rule, dir, name);
    var k :| 0 <= k < |a| && a[k] == FirstAnswer(a) && forall j :: 0 <= j < k ==> a[j] == Ok(None);
    forall j | 0 <= j < k
      ensures DirBlockLookup(fs, rule, dir, name, j) == Ok(None)
    {
      assert a[j] == DirBlockLookup(fs, rule, dir, name, j);
    }
    assert DirBlockLookup(fs, rule, dir, name, k) == FirstAnswer(a);
  }

  /** The lookup of one path part in the inode `dir`: the first decisive
      answer among its blocks. An inode without data blocks contains
      nothing. */
  function LookupInDir(fs: EroFS, rule: BlockRule, dir: Inode, name: string): (r: Answer)
    requires fs.Valid()
    ensures BlockCount(fs, dir) == 0 ==> r == Ok(None)
    ensures r == Ok(None) <==> forall j :: 0 <= j < BlockCount(fs, dir) ==> DirBlockLookup(fs, rule, dir, name, j) == Ok(None)
    ensures r != Ok(None) ==>
              exists k :: 0 <= k < BlockCount(fs, dir) && DirBlockLookup(fs, rule, dir, name, k) == r &&
                          forall j :: 0 <= j < k ==> DirBlockLookup(fs, rule, dir, name, j) == Ok(None)
  {
    var r := FirstAnswer(DirAnswers(fs, rule, dir, name));
    if r != Ok(None) then DecidingBlock(fs, rule, dir, name); r else r
  }

  /** Outside chunk-based directories the corrected block length changes
      nothing: both rules give the same lookup. */
  lemma LookupRulesAgree(fs: EroFS, dir: Inode, name: string)
    requires fs.Valid() && dir.DataLayout() != Ok(ChunkBased)
    ensures LookupInDir(fs, AsWritten, dir, name) == LookupInDir(fs, Corrected, dir, name)
  {
    assert DirAnswers(fs, AsWritten, dir, name) == DirAnswers(fs, Corrected, dir, name);
  }

  // ---------------------------------------------------------------------
  // Walking the parts

  /** Parts that name nothing and are passed over without any read. */
  predicate Skipped(part: string) {
    part == "" || part == "."
  }

  /** The parts the walk actually looks up. */
  function Significant(parts: seq<string>): (r: seq<string>)
    ensures |r| <= |parts|
    ensures forall i :: 0 <= i < |r| ==> !Skipped(r[i])
    ensures forall i :: 0 <= i < |parts| && !Skipped(parts[i]) ==> parts[i] in r
  {
    if |parts| == 0 then []
    else if Skipped(parts[0]) then Significant(parts[1..])
    else [parts[0]] + Significant(parts[1..])
  }

  /** A single part is kept exactly when it names something. */
  lemma SignificantOne(x: string)
    ensures Significant([x]) == if Skipped(x) then [] else [x]
  {
    assert [x][1..] == [];
  }

  /** Filtering keeps the order of the parts: the significant parts of
      `p + q` are those of `p` followed by those of `q`. */
  lemma {:induction false} SignificantAppend(p: seq<string>, q: seq<string>)
    ensures Significant(p + q) == Significant(p) + Significant(q)
    decreases |p|
  {
    if |p| == 0 {
      assert p + q == q;
    } else {
      assert (p + q)[0] == p[0] && (p + q)[1..] == p[1..] + q;
      SignificantAppend(p[1..], q);
    }
  }

  /** How one significant part moves the walk from a node id. */
  type Stepper = (uint64, string) -> Answer

  /** The step of `get_path_inode_str`: read the inode `nid` and look `part`
      up in its blocks. An inode that cannot be read ends the walk with its
      error, before any block is fetched. */
  function Step(fs: EroFS, rule: BlockRule, nid: uint64, part: string): (r: Answer)
    requires fs.Valid()
    ensures GetInode(fs, nid).Err? ==> r == Err(GetInode(fs, nid).error)
    ensures GetInode(fs, nid).Ok? ==> r == LookupInDir(fs, rule, GetInode(fs, nid).value, part)
    ensures GetInode(fs, nid).Ok? && BlockCount(fs, GetInode(fs, nid).value) == 0 ==> r == Ok(None)
  {
    var dir :- GetInode(fs, nid);
    LookupInDir(fs, rule, dir, part)
  }

  function StepOf(fs: EroFS, rule: BlockRule): (step: Stepper)
    requires fs.Valid()
    ensures forall nid, part :: step(nid, part) == Step(fs, rule, nid, part)
  {
    (nid: uint64, part: string) => Step(fs, rule, nid, part)
  }

  /** The outer loop of `get_path_inode_str` from node `nid`: `Ok(Some(n))`
      is the node id reached, `Ok(None)` a part that was not found. */
  function Walk(step: Stepper, nid: uint64, parts: seq<string>): (r: Answer)
    ensures Significant(parts) == [] ==> r == Ok(Some(nid))
    decreases |parts|
  {
    if |parts| == 0 then Ok(Some(nid))
    else if Skipped(parts[0]) then Walk(step, nid, parts[1..])
    else
      var next :- step(nid, parts[0]);
      match next
      case None => Ok(None)
      case Some(child) => Walk(step, child, parts[1..])
  }

  /** Wherever a walk ends other than where it started, it ends with the
      answer some step gave for one of its significant parts: a node id
      found, "not found", or an error. */
  lemma {:induction false} WalkAnswers(step: Stepper, nid: uint64, parts: seq<string>)
    ensures Walk(step, nid, parts) != Ok(Some(nid)) ==>
              exists n: uint64, i :: 0 <= i < |parts| && !Skipped(parts[i]) && step(n, parts[i]) == Walk(step, nid, parts)
    decreases |parts|
  {
    var r := Walk(step, nid, parts);
    if |parts| > 0 && r != Ok(Some(nid)) {
      var rest := parts[1..];
      if Skipped(parts[0]) {
        WalkAnswers(step, nid, rest);
        var n: uint64, i :| 0 <= i < |rest| && !Skipped(rest[i]) && step(n, rest[i]) == r;
        assert parts[i + 1] == rest[i];
      } else {
        var a := step(nid, parts[0]);
        if a.Ok? && a.value.Some? && r != a {
          var child := a.value.value;
          WalkAnswers(step, child, rest);
          var n: uint64, i :| 0 <= i < |rest| && !Skipped(rest[i]) && step(n, rest[i]) == r;
          assert parts[i + 1] == rest[i];
        }
      }
    }
  }

  /** Walking the parts is walking only the parts that name something. */
  lemma {:induction false} WalkSignificant(step: Stepper, nid: uint64, parts: seq<string>)
    ensures Walk(step, nid, parts) == Walk(step, nid, Significant(parts))
    decreases |parts|
  {
    if |parts| > 0 {
      var rest := Significant(parts[1..]);
      if Skipped(parts[0]) {
        WalkSignificant(step, nid, parts[1..]);
      } else {
        assert ([parts[0]] + rest)[1..] == rest;
        forall child: uint64 ensures Walk(step, child, parts[1..]) == Walk(step, child, rest) {
          WalkSignificant(step, child, parts[1..]);
        }
      }
    }
  }

  lemma {:induction false} SignificantFrom(parts: seq<string>, x: string)
    requires x in Significant(parts)
    ensures x in parts
    decreases |parts|
  {
    if |parts| > 0 && x != parts[0] {
      if Skipped(parts[0]) {
        SignificantFrom(parts[1..], x);
      } else {
        assert x in Significant(parts[1..]);
        SignificantFrom(parts[1..], x);
      }
    }
  }

  /** Parts that all name nothing lead nowhere: the walk stays at `nid`. */
  lemma WalkSkipsAll(step: Stepper, nid: uint64, parts: seq<string>)
    requires forall i :: 0 <= i < |parts| ==> Skipped(parts[i])
    ensures Walk(step, nid, parts) == Ok(Some(nid))
  {
    WalkSignificant(step, nid, parts);
    if Significant(parts) != [] {
      assert Significant(parts)[0] in Significant(parts);
      SignificantFrom(parts, Significant(parts)[0]);
    }
  }

  /** Carry on walking `parts` from where a walk ended, if it reached a node. */
  function Continue(step: Stepper, w: Answer, parts: seq<string>): Answer {
    if w.Ok? && w.value.Some? then Walk(step, w.value.value, parts) else w
  }

  /** Walking `p + q` is walking `p` and then, from where that ends, `q`;
      a failure or a missing part in `p` ends the whole walk. */
  lemma {:induction false} WalkAppend(step: Stepper, nid: uint64, p: seq<string>, q: seq<string>)
    ensures Walk(step, nid, p + q) == Continue(step, Walk(step, nid, p), q)
    decreases |p|
  {
    if |p| == 0 {
      assert p + q == q;
    } else {
      assert (p + q)[0] == p[0] && (p + q)[1..] == p[1..] + q;
      if Skipped(p[0]) {
        WalkAppend(step, nid, p[1..], q);
      } else {
        forall child: uint64
          ensures Walk(step, child, p[1..] + q) == Continue(step, Walk(step, child, p[1..]), q)
        {
          WalkAppend(step, child, p[1..], q);
        }
      }
    }
  }

  // ---------------------------------------------------------------------
  // Paths

  /** `get_path_inode_str`: walk from the root node id, then fetch the inode
      reached. */
  function GetPathInodeStr(fs: EroFS, path: string): (r: Result<Option<Inode>>)
    requires fs.Valid()
    ensures var w := Walk(StepOf(fs, AsWritten), fs.superBlock.rootNid, Split(path));
            && (w.Err? ==> r == Err(w.error))
            && (w == Ok(None) ==> r == Ok(None))
            && (w.Ok? && w.value.Some? ==>
                  r == (match GetInode(fs, w.value.value)
                        case Ok(inode) => Ok(Some(inode))
                        case Err(e) => Err(e)))
    ensures r.Ok? && r.value.Some? ==>
              r.value.value.nid == Walk(StepOf(fs, AsWritten), fs.superBlock.rootNid, Split(path)).value.value
    ensures Significant(Split(path)) == [] ==>
              r == (match GetInode(fs, fs.superBlock.rootNid)
                    case Ok(inode) => Ok(Some(inode))
                    case Err(e) => Err(e))
    ensures r == Ok(None) ==> Significant(Split(path)) != []
  {
    var found :- Walk(StepOf(fs, AsWritten), fs.superBlock.rootNid, Split(path));
    match found
    case None => Ok(None)
    case Some(nid) =>
      var inode :- GetInode(fs, nid);
      Ok(Some(inode))
  }

  /** The spellings of the root directory: nothing, or a run of "/" and
      "./", possibly ending in ".". */
  predicate RootSpelling(path: string)
    decreases |path|
  {
    || |path| == 0
    || path == "."
    || (path[0] == '/' && RootSpelling(path[1..]))
    || (|path| >= 2 && path[0] == '.' && path[1] == '/' && RootSpelling(path[2..]))
  }

  /** A spelling of the root splits into parts that are all skipped. */
  lemma {:induction false} RootPartsSkipped(path: string)
    requires RootSpelling(path)
    ensures forall i :: 0 <= i < |Split(path)| ==> Skipped(Split(path)[i])
    decreases |path|
  {
    if |path| == 0 {
    } else if path == "." {
      assert path[1..] == [];
      assert Split(path[1..]) == [""];
      assert [path[0]] + "" == ".";
      assert Split(path) == ["."];
    } else if path[0] == '/' && RootSpelling(path[1..]) {
      RootPartsSkipped(path[1..]);
    } else {
      assert path[0] == '.';
      var tail := path[1..];
      assert tail[0] == '/' && tail[1..] == path[2..];
      assert Split(tail) == [""] + Split(path[2..]);
      assert [path[0]] + "" == ".";
      assert Split(path) == ["."] + Split(path[2..]);
      RootPartsSkipped(path[2..]);
    }
  }

  /** Every spelling of the root resolves to the root inode. */
  lemma RootPath(fs: EroFS, path: string)
    requires fs.Valid() && RootSpelling(path)
    ensures GetPathInodeStr(fs, path) ==
              match GetInode(fs, fs.superBlock.rootNid)
              case Ok(inode) => Ok(Some(inode))
              case Err(e) => Err(e)
  {
    RootPartsSkipped(path);
    WalkSkipsAll(StepOf(fs, AsWritten), fs.superBlock.rootNid, Split(path));
  }

  /** Resolving `a + "/" + b` resolves `a` and then resolves `b` from the
      node `a` reached. */
  lemma ResolveConcat(fs: EroFS, a: string, b: string)
    requires fs.Valid()
    ensures Walk(StepOf(fs, AsWritten), fs.superBlock.rootNid, Split(a + "/" + b)) ==
              Continue(StepOf(fs, AsWritten), Walk(StepOf(fs, AsWritten), fs.superBlock.rootNid, Split(a)), Split(b))
  {
    SplitConcat(a, b);
    WalkAppend(StepOf(fs, AsWritten), fs.superBlock.rootNid, Split(a), Split(b));
  }

  /** `open_path`: resolve the path, report a missing one with the path
      itself, and open what was found as a file. */
  function OpenPath(fs: EroFS, path: string): (r: Result<File>)
    requires fs.Valid()
    ensures var g := GetPathInodeStr(fs, path);
            && (g.Err? ==> r == Err(g.error))
            && (g == Ok(None) ==> r == Err(PathNotFound(path)))
            && (g.Ok? && g.value.Some? ==> r == OpenInodeFile(fs, g.value.value))
    ensures r.Ok? <==> GetPathInodeStr(fs, path).Ok? && GetPathInodeStr(fs, path).value.Some? &&
                       GetPathInodeStr(fs, path).value.value.record.isFile
    ensures r.Ok? ==> r.value.inode == GetPathInodeStr(fs, path).value.value && r.value.fs == fs
  {
    var found :- GetPathInodeStr(fs, path);
    match found
    case None => Err(PathNotFound(path))
    case Some(inode) => OpenInodeFile(fs, inode)
  }

  // ---------------------------------------------------------------------
  // The example image, read as a directory

  /** Read as a directory, the example file of `IntendedBlocks` names node 5
      "x" at the start of its second block. As written that block is empty
      and the name is nowhere; the corrected scan finds it. The example inode
      is recorded as a file: like `get_path_inode_str`, the walk never checks
      that the inode it scans is a directory. */
  lemma TailLookup()
    ensures LookupInDir(TailImage(), AsWritten, TailInode(), "x") == Ok(None)
    ensures LookupInDir(TailImage(), Corrected, TailInode(), "x") == Ok(Some(5))
  {
    var fs, dir := TailImage(), TailInode();
    assert BlockCount(fs, dir) == 2;
    TailDirBlocks();
  }

  /** The example directory's answers for "x", block by block. */
  lemma TailDirBlocks()
    ensures BlockCount(TailImage(), TailInode()) == 2
    ensures DirBlockLookup(TailImage(), AsWritten, TailInode(), "x", 0) == Ok(None)
    ensures DirBlockLookup(TailImage(), Corrected, TailInode(), "x", 0) == Ok(None)
    ensures DirBlockLookup(TailImage(), AsWritten, TailInode(), "x", 1) == Ok(None)
    ensures DirBlockLookup(TailImage(), Corrected, TailInode(), "x", 1) == Ok(Some(5))
  {
    TailDirFirst(AsWritten);
    TailDirFirst(Corrected);
    TailDirSecond();
  }

  /** The first block of the example directory is full under both rules
      and starts with 0: "x" is not in it. */
  lemma TailDirFirst(rule: BlockRule)
    ensures BlockCount(TailImage(), TailInode()) == 2
    ensures DirBlockLookup(TailImage(), rule, TailInode(), "x", 0) == Ok(None)
  {
    var fs, dir := TailImage(), TailInode();
    assert BlockCount(fs, dir) == 2;
    assert DirBlockOffset(fs, dir, 0) == 0;
    TailFirstBlock();
    var b := fs.store[1536..2048];
    assert DirBlock(fs, rule, dir, 0) == Ok(b);
    assert b[0] == TailStore()[1536] == 0;
    assert fs.codec.findNodeIdByName("x", b) == Ok(None);
  }

  /** The second block: empty as written, block 4 (starting with 7)
      corrected. */
  lemma TailDirSecond()
    ensures BlockCount(TailImage(), TailInode()) == 2
    ensures DirBlockLookup(TailImage(), AsWritten, TailInode(), "x", 1) == Ok(None)
    ensures DirBlockLookup(TailImage(), Corrected, TailInode(), "x", 1) == Ok(Some(5))
  {
    var fs, dir := TailImage(), TailInode();
    assert BlockCount(fs, dir) == 2;
    assert DirBlockOffset(fs, dir, 1) == 512;
    TailAsWritten();
    TailIntended();
    var b := fs.store[2048..2560];
    assert DirBlock(fs, AsWritten, dir, 512) == Ok([]);
    assert fs.codec.findNodeIdByName("x", []) == Ok(None);
    assert DirBlock(fs, Corrected, dir, 512) == Ok(b);
    assert b[0] == TailStore()[2048] == 7;
    assert fs.codec.findNodeIdByName("x", b) == Ok(Some(5));
  }

  /** The same at the level of paths: the program reports "x" as not found
      and cannot open it. */
  lemma TailPathAsWritten()
    ensures GetPathInodeStr(TailImage(), "x") == Ok(None)
    ensures OpenPath(TailImage(), "x") == Err(PathNotFound("x"))
  {
    var fs := TailImage();
    TailSplit();
    TailInodeRead();
    TailLookup();
    assert Step(fs, AsWritten, 0, "x") == Ok(None);
    assert Walk(StepOf(fs, AsWritten), 0, ["x"]) == Ok(None);
  }

  /** The corrected walk resolves "x" in the example image to node 5. */
  lemma TailPathCorrected()
    ensures Walk(StepOf(TailImage(), Corrected), 0, Split("x")) == Ok(Some(5))
  {
    var fs := TailImage();
    TailSplit();
    TailInodeRead();
    TailLookup();
    assert Step(fs, Corrected, 0, "x") == Ok(Some(5));
    assert Walk(StepOf(fs, Corrected), 5, []) == Ok(Some(5));
  }

  lemma TailSplit()
    ensures Split("x") == ["x"]
  {
    SplitNoSeparator("x");
  }
}
