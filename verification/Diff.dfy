/** Comparing two sorted listings of a guest's files. */
module Diff {
  import opened StringOrder
  import opened Wrappers

  datatype Kind = Regular | Directory | Other

  datatype Time = Time(sec: int, nsec: int)

  const NO_TIME: Time := Time(0, 0)

  /** Every field of a stat structure that has a meaning; the kind is part of the mode. */
  datatype Stat = Stat(dev: int, ino: int, kind: Kind, mode: int, nlink: int, uid: int, gid: int, rdev: int,
                       size: int, blksize: int, blocks: int, atime: Time, mtime: Time, ctime: Time)

  datatype File = File(path: string, stat: Stat, xattrs: seq<(string, string)>, csum: Option<string>)

  /** What the command line asks for. */
  datatype Options = Options(checksum: bool, atime: bool, dirLinks: bool, dirTimes: bool, csv: bool)

  /** Fields that are not compared are made equal: the access time unless it is asked for, and the
      number of links and all times of a directory unless they are. */
  function Flattened(o: Options, st: Stat): (r: Stat)
    ensures r == st.(nlink := r.nlink, atime := r.atime, mtime := r.mtime, ctime := r.ctime)
    ensures r.nlink == if st.kind != Directory || o.dirLinks then st.nlink else 0
    ensures r.mtime == if st.kind != Directory || o.dirTimes then st.mtime else Time(0, 0)
    ensures r.ctime == if st.kind != Directory || o.dirTimes then st.ctime else Time(0, 0)
    ensures r.atime == if o.atime && (st.kind != Directory || o.dirTimes) then st.atime else Time(0, 0)
  {
    var s1 := if o.atime then st else st.(atime := NO_TIME);
    var s2 := if !o.dirLinks && st.kind == Directory then s1.(nlink := 0) else s1;
    if !o.dirTimes && st.kind == Directory then s2.(atime := NO_TIME, mtime := NO_TIME, ctime := NO_TIME) else s2
  }

  /** Two stats that agree in all that is compared. */
  predicate Agree(o: Options, s: Stat, t: Stat) {
    && s.dev == t.dev && s.ino == t.ino && s.kind == t.kind && s.mode == t.mode && s.uid == t.uid && s.gid == t.gid
    && s.rdev == t.rdev && s.size == t.size && s.blksize == t.blksize && s.blocks == t.blocks
    && (s.kind != Directory || o.dirLinks ==> s.nlink == t.nlink)
    && (s.kind != Directory || o.dirTimes ==> s.mtime == t.mtime && s.ctime == t.ctime)
    && (o.atime && (s.kind != Directory || o.dirTimes) ==> s.atime == t.atime)
  }

  lemma FlattenedSame(o: Options, s: Stat, t: Stat)
    ensures Flattened(o, s) == Flattened(o, t) <==> Agree(o, s, t)
  {
  }

  /** A checksum is taken of regular files only. */
  predicate Visited(o: Options, f: File) {
    f.csum.Some? ==> f.stat.kind == Regular
  }

  /** The listing of one guest, in an array that doubles when it is full. */
  class Tree {
    var files: array<File>
    var nrFiles: nat

    ghost predicate Valid(o: Options)
      reads this, files
    {
      && nrFiles <= files.Length
      && forall k | 0 <= k < nrFiles :: Visited(o, files[k])
    }

    ghost function Contents(): seq<File>
      requires nrFiles <= files.Length
      reads this, files
    {
      files[..nrFiles]
    }

    constructor (o: Options)
      ensures Valid(o) && Contents() == [] && fresh(files) && files.Length == 0
    {
      files := new File[0];
      nrFiles := 0;
    }

    /** Adds a file, unless copying what describes it, taking its checksum or making room fails.
        When there is no room the array is kept, but the count has gone up already. */
    method VisitEntry(o: Options, path: string, st: Stat, xattrs: seq<(string, string)>, copied: bool,
                      sum: Option<string>, room: bool) returns (ok: bool)
      requires Valid(o)
      modifies this, files
      ensures var wanted := o.checksum && st.kind == Regular;
              var ready, full := copied && (wanted ==> sum.Some?), old(nrFiles) == old(files.Length);
              && (ok <==> ready && (full ==> room))
              && (ok ==>
                    && Valid(o) && (files == old(files) || fresh(files))
                    && Contents() == old(Contents())
                                     + [File(path, Flattened(o, st), xattrs, if wanted then sum else None)])
              && (!ok ==>
                    && files == old(files) && files[..] == old(files[..])
                    && nrFiles == old(nrFiles) + if ready then 1 else 0)
    {
      hide Flattened;
      if !copied { return false; }
      var csum := None;
      if o.checksum && st.kind == Regular {
        csum := sum;
        if csum.None? { return false; }
      }
      var f := File(path, Flattened(o, st), xattrs, csum);
      var i := nrFiles;
      nrFiles := nrFiles + 1;
      if i >= files.Length {
        if !room { return false; }
        Enlarge(i, f);
      }
      files[i] := f;
      ok := true;
    }

    /** Moves the files into an array of twice the size. */
    method Enlarge(i: nat, f: File)
      requires i == files.Length
      modifies this`files
      ensures fresh(files) && files.Length == (if i == 0 then 1024 else 2 * i) && files[..i] == old(files[..])
    {
      var space := if files.Length == 0 then 1024 else files.Length * 2;
      var old' := files;
      files := new File[space](k requires 0 <= k < space reads old' => if k < old'.Length then old'[k] else f);
    }
  }

  /** What the comparison comes upon: a file of one tree only, or one path in both. */
  datatype Event = Deleted(f: File) | Added(f: File) | Both(f1: File, f2: File)

  function Merge(a: seq<File>, b: seq<File>): seq<Event>
    decreases |a| + |b|
  {
    if a == [] && b == [] then []
    else if b == [] || (a != [] && Less(a[0].path, b[0].path)) then [Deleted(a[0])] + Merge(a[1..], b)
    else if a == [] || Less(b[0].path, a[0].path) then [Added(b[0])] + Merge(a, b[1..])
    else [Both(a[0], b[0])] + Merge(a[1..], b[1..])
  }

  /** The loop with two cursors. */
  method DiffGuests(t1: seq<File>, t2: seq<File>) returns (events: seq<Event>)
    ensures events == Merge(t1, t2)
  {
    hide Less, Merge;
    var i1, i2 := 0, 0;
    events := [];
    assert t1[0..] == t1 && t2[0..] == t2 && [] + Merge(t1, t2) == Merge(t1, t2);
    while i1 < |t1| || i2 < |t2|
      invariant i1 <= |t1| && i2 <= |t2| && events + Merge(t1[i1..], t2[i2..]) == Merge(t1, t2)
      decreases |t1| - i1 + |t2| - i2
    {
      ghost var done, j1, j2 := events, i1, i2;
      var event;
      if i1 < |t1| && i2 < |t2| {
        if Less(t1[i1].path, t2[i2].path) {
          event := Deleted(t1[i1]);
          i1 := i1 + 1;
        } else if Less(t2[i2].path, t1[i1].path) {
          event := Added(t2[i2]);
          i2 := i2 + 1;
        } else {
          event := Both(t1[i1], t2[i2]);
          i1, i2 := i1 + 1, i2 + 1;
        }
      } else if i1 < |t1| {
        event := Deleted(t1[i1]);
        i1 := i1 + 1;
      } else {
        event := Added(t2[i2]);
        i2 := i2 + 1;
      }
      MergeStep(t1, t2, j1, j2);
      OneMore(done, event, Merge(t1[i1..], t2[i2..]));
      events := events + [event];
    }
    MergeEnd(t1, t2);
    assert events + [] == events;
  }

  lemma OneMore(done: seq<Event>, event: Event, more: seq<Event>)
    ensures done + ([event] + more) == (done + [event]) + more
  {
  }

  lemma MergeEnd(a: seq<File>, b: seq<File>)
    ensures Merge(a[|a|..], b[|b|..]) == []
  {
  }

  lemma MergeStep(a: seq<File>, b: seq<File>, i: nat, j: nat)
    requires i <= |a| && j <= |b| && (i < |a| || j < |b|)
    ensures Merge(a[i..], b[j..])
            == if j == |b| || (i < |a| && Less(a[i].path, b[j].path)) then
                 [Deleted(a[i])] + Merge(a[i + 1..], b[j..])
               else if i == |a| || Less(b[j].path, a[i].path) then
                 [Added(b[j])] + Merge(a[i..], b[j + 1..])
               else [Both(a[i], b[j])] + Merge(a[i + 1..], b[j + 1..])
  {
    hide Less;
    assert i < |a| ==> a[i..][1..] == a[i + 1..];
    assert j < |b| ==> b[j..][1..] == b[j + 1..];
  }

  predicate StrictlySorted(t: seq<File>) {
    forall j, k | 0 <= j < k < |t| :: Less(t[j].path, t[k].path)
  }

  predicate HasPath(t: seq<File>, path: string) {
    exists k | 0 <= k < |t| :: t[k].path == path
  }

  /** The files of a whose paths are not in b, in order. */
  function OnlyIn(a: seq<File>, b: seq<File>): seq<File> {
    if a == [] then []
    else (if HasPath(b, a[0].path) then [] else [a[0]]) + OnlyIn(a[1..], b)
  }

  /** The files of a whose paths are in b, in order. */
  function AlsoIn(a: seq<File>, b: seq<File>): seq<File> {
    if a == [] then []
    else (if HasPath(b, a[0].path) then [a[0]] else []) + AlsoIn(a[1..], b)
  }

  function DeletedOf(e: seq<Event>): seq<File> {
    if e == [] then [] else (if e[0].Deleted? then [e[0].f] else []) + DeletedOf(e[1..])
  }

  function AddedOf(e: seq<Event>): seq<File> {
    if e == [] then [] else (if e[0].Added? then [e[0].f] else []) + AddedOf(e[1..])
  }

  /** The two sides of the pairs. */
  function Left(e: seq<Event>): seq<File> {
    if e == [] then [] else (if e[0].Both? then [e[0].f1] else []) + Left(e[1..])
  }

  function Right(e: seq<Event>): seq<File> {
    if e == [] then [] else (if e[0].Both? then [e[0].f2] else []) + Right(e[1..])
  }

  /** A path before all of b's is not in b. */
  lemma BeforeAll(b: seq<File>, path: string)
    requires StrictlySorted(b) && (b == [] || Less(path, b[0].path))
    ensures !HasPath(b, path)
  {
    forall k | 0 <= k < |b| ensures b[k].path != path {
      if k != 0 { LessTransitive(path, b[0].path, b[k].path); }
      LessAsymmetric(path, b[k].path);
    }
  }

  /** Dropping a first file that a does not have changes nothing for a. */
  lemma {:induction false} DropFirst(a: seq<File>, b: seq<File>)
    requires b != [] && forall k | 0 <= k < |a| :: a[k].path != b[0].path
    ensures OnlyIn(a, b[1..]) == OnlyIn(a, b) && AlsoIn(a, b[1..]) == AlsoIn(a, b)
    decreases |a|
  {
    if a != [] {
      DropFirst(a[1..], b);
      assert HasPath(b, a[0].path) <==> HasPath(b[1..], a[0].path) by { PathInRest(b, a[0].path); }
    }
  }

  lemma PathInRest(b: seq<File>, path: string)
    requires b != [] && b[0].path != path
    ensures HasPath(b, path) <==> HasPath(b[1..], path)
  {
    if HasPath(b, path) {
      var k :| 0 <= k < |b| && b[k].path == path;
      assert b[1..][k - 1].path == path;
    }
    if HasPath(b[1..], path) {
      var k :| 0 <= k < |b[1..]| && b[1..][k].path == path;
      assert b[k + 1].path == path;
    }
  }

  lemma FirstDistinct(a: seq<File>, b: seq<File>)
    requires StrictlySorted(a) && StrictlySorted(b) && a != [] && b != []
    ensures Less(a[0].path, b[0].path) ==> forall k | 0 <= k < |b| :: b[k].path != a[0].path
    ensures a[0].path == b[0].path ==> forall k | 0 <= k < |b[1..]| :: b[1..][k].path != a[0].path
  {
    if Less(a[0].path, b[0].path) { BeforeAll(b, a[0].path); }
    if a[0].path == b[0].path {
      forall k | 0 <= k < |b[1..]| ensures b[1..][k].path != a[0].path {
        LessAsymmetric(b[0].path, b[k + 1].path);
      }
    }
  }

  /** For strictly sorted trees: deleted are exactly the files of the first tree whose paths the
      second has not, added the other way round, and every path that is in both comes up once,
      as a pair of its two files, all of them in order. */
  lemma {:induction false} MergeIs(a: seq<File>, b: seq<File>)
    requires StrictlySorted(a) && StrictlySorted(b)
    ensures var e := Merge(a, b);
            && DeletedOf(e) == OnlyIn(a, b) && AddedOf(e) == OnlyIn(b, a)
            && Left(e) == AlsoIn(a, b) && Right(e) == AlsoIn(b, a)
            && forall k | 0 <= k < |e| :: e[k].Both? ==> e[k].f1.path == e[k].f2.path
    decreases |a| + |b|
  {
    if a == [] && b == [] {
    } else if b == [] || (a != [] && Less(a[0].path, b[0].path)) {
      MergeIs(a[1..], b);
      BeforeAll(b, a[0].path);
      DropFirst(b, a);
    } else if a == [] || Less(b[0].path, a[0].path) {
      MergeIs(a, b[1..]);
      BeforeAll(a, b[0].path);
      DropFirst(a, b);
    } else {
      LessTotal(a[0].path, b[0].path);
      MergeIs(a[1..], b[1..]);
      FirstDistinct(a, b);
      FirstDistinct(b, a);
      DropFirst(a[1..], b);
      DropFirst(b[1..], a);
      assert a[0].path == b[0].path && HasPath(a, b[0].path) && HasPath(b, a[0].path);
    }
  }

  function Swapped(e: seq<Event>): seq<Event> {
    if e == [] then []
    else [match e[0]
          case Deleted(f) => Added(f)
          case Added(f) => Deleted(f)
          case Both(f1, f2) => Both(f2, f1)] + Swapped(e[1..])
  }

  /** Comparing the trees the other way round swaps what is deleted and added, for any order
      of the files. */
  lemma {:induction false} MergeSwaps(a: seq<File>, b: seq<File>)
    ensures Merge(b, a) == Swapped(Merge(a, b))
    decreases |a| + |b|
  {
    if a != [] && b != [] && Less(a[0].path, b[0].path) { LessAsymmetric(a[0].path, b[0].path); }
    if a != [] { if b == [] || Less(a[0].path, b[0].path) { MergeSwaps(a[1..], b); } }
    if b != [] { if a == [] || Less(b[0].path, a[0].path) { MergeSwaps(a, b[1..]); } }
    if a != [] && b != [] { MergeSwaps(a[1..], b[1..]); }
  }

  /** What is said about a path in both trees. */
  datatype Report = Same | ContentChanged | StatsChanged

  function CompareDetail(f1: File, f2: File): Report {
    var stats := f1.stat != f2.stat || f1.xattrs != f2.xattrs;
    if stats then Changed(f1, f2, true, false)
    else if f1.csum.Some? && f2.csum.Some? then Changed(f1, f2, false, f1.csum != f2.csum)
    else Same
  }

  function Changed(f1: File, f2: File, st: bool, cst: bool): Report {
    if cst || (&& f1.stat.kind == Regular && f2.stat.kind == Regular
               && (f1.stat.mtime.sec != f2.stat.mtime.sec || f1.stat.ctime.sec != f2.stat.ctime.sec
                   || f1.stat.size != f2.stat.size))
    then ContentChanged
    else if st then StatsChanged else Same
  }

  /** Two entries of visited trees: the assertions of the comparison of contents never fail, since
      a checksum is only ever there for a regular file. Nothing is said exactly when the files
      agree in every field and in their checksums, as far as both have one. Contents known to
      differ are reported as such exactly when nothing else differs, or the size or the seconds
      of a time do: otherwise the report is that only the stats have changed. With no checksums
      the contents of regular files are taken to differ when the size or those seconds do. */
  lemma DetailIs(o: Options, f1: File, f2: File)
    requires Visited(o, f1) && Visited(o, f2)
    ensures CompareDetail(f1, f2) == ContentChanged ==> f1.stat.kind == Regular && f2.stat.kind == Regular
    ensures CompareDetail(f1, f2) == Same
            <==> f1.stat == f2.stat && f1.xattrs == f2.xattrs
                 && (f1.csum.Some? && f2.csum.Some? ==> f1.csum == f2.csum)
    ensures f1.csum.Some? && f2.csum.Some? && f1.csum != f2.csum ==>
              (CompareDetail(f1, f2) == ContentChanged
               <==> (f1.stat == f2.stat && f1.xattrs == f2.xattrs)
                    || f1.stat.mtime.sec != f2.stat.mtime.sec || f1.stat.ctime.sec != f2.stat.ctime.sec
                    || f1.stat.size != f2.stat.size)
    ensures CompareDetail(f1, f2) == ContentChanged
            <==> (&& f1.stat == f2.stat && f1.xattrs == f2.xattrs
                  && f1.csum.Some? && f2.csum.Some? && f1.csum != f2.csum)
                 || (&& f1.stat.kind == Regular && f2.stat.kind == Regular
                     && (f1.stat.size != f2.stat.size || f1.stat.mtime.sec != f2.stat.mtime.sec
                         || f1.stat.ctime.sec != f2.stat.ctime.sec))
    ensures CompareDetail(f1, f2) == CompareDetail(f2, f1)
  {
  }

  /** So of two files as they were found, nothing is said exactly when all that the options compare
      agrees. */
  lemma NothingSaid(o: Options, s: Stat, t: Stat, f1: File, f2: File)
    requires Visited(o, f1) && Visited(o, f2) && f1.stat == Flattened(o, s) && f2.stat == Flattened(o, t)
    ensures CompareDetail(f1, f2) == Same
            <==> Agree(o, s, t) && f1.xattrs == f2.xattrs
                 && (f1.csum.Some? && f2.csum.Some? ==> f1.csum == f2.csum)
  {
    FlattenedSame(o, s, t);
    DetailIs(o, f1, f2);
  }

  /** Two versions of a file with other contents and another owner, of one size and time: the
      report does not say that the contents differ. */
  lemma ContentChangeMissed()
    ensures var t := Time(1_000_000, 0);
            var st := Stat(1, 42, Regular, 0x81A4, 1, 0, 0, 0, 5, 4096, 8, t, t, t);
            var f1, f2 := File("/f", st, [], Some("aa")), File("/f", st.(uid := 1000), [], Some("bb"));
            var o := Options(true, true, false, false, false);
            Visited(o, f1) && Visited(o, f2) && f1.csum != f2.csum && CompareDetail(f1, f2) == StatsChanged
  {
  }

  /** The pairs a comparison of two visited trees hands to the detailed comparison are of visited
      files, so that the above holds of each of them. */
  lemma {:induction false} PairsVisited(o: Options, a: seq<File>, b: seq<File>)
    requires forall k | 0 <= k < |a| :: Visited(o, a[k])
    requires forall k | 0 <= k < |b| :: Visited(o, b[k])
    ensures forall k | 0 <= k < |Merge(a, b)| :: Merge(a, b)[k].Both? ==>
              Visited(o, Merge(a, b)[k].f1) && Visited(o, Merge(a, b)[k].f2)
    decreases |a| + |b|
  {
    hide Less, Visited;
    if a != [] { if b == [] || Less(a[0].path, b[0].path) { PairsVisited(o, a[1..], b); } }
    if b != [] { if a == [] || Less(b[0].path, a[0].path) { PairsVisited(o, a, b[1..]); } }
    if a != [] && b != [] { PairsVisited(o, a[1..], b[1..]); }
  }

  /** So between visited trees contents are only ever compared of regular files. */
  lemma OnlyRegularDiffed(o: Options, a: seq<File>, b: seq<File>, k: nat)
    requires forall k | 0 <= k < |a| :: Visited(o, a[k])
    requires forall k | 0 <= k < |b| :: Visited(o, b[k])
    requires k < |Merge(a, b)| && Merge(a, b)[k].Both?
    requires CompareDetail(Merge(a, b)[k].f1, Merge(a, b)[k].f2) == ContentChanged
    ensures Merge(a, b)[k].f1.stat.kind == Regular && Merge(a, b)[k].f2.stat.kind == Regular
  {
    PairsVisited(o, a, b);
    DetailIs(o, Merge(a, b)[k].f1, Merge(a, b)[k].f2);
  }
}
