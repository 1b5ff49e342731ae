/** Following growing files in a guest: what is remembered of each and what is printed. */
module Tail {
  import opened Wrappers

  /** Last modification time and size. */
  datatype Follow = Follow(mtime: int, size: int)

  /** A file as one look at the guest finds it; reading it may fail. */
  datatype View = View(mtime: int, content: string, readable: bool)

  datatype Out = Banner(i: nat) | Chars(i: nat, text: string) | LastLines(i: nat)

  const A_LOT: nat := 10000

  /** What one look at a file leaves remembered. A file that is not there counts as empty. */
  function Remembered(f: Follow, v: Option<View>, now: int): Follow {
    match v
    case None => Follow(now, 0)
    case Some(w) => Follow(w.mtime, |w.content|)
  }

  predicate Changed(f: Follow, v: Option<View>) {
    v.Some? && (f.mtime != v.value.mtime || f.size != |v.value.content|)
  }

  /** What it prints: the new content unless it is a lot, else the last lines. */
  function Printed(i: nat, f: Follow, v: Option<View>): seq<Out>
    requires 0 <= f.size
  {
    if !Changed(f, v) then []
    else
      var w := v.value;
      if f.size + A_LOT < |w.content| then (if w.readable then [LastLines(i)] else [])
      else if f.size < |w.content| then (if w.readable then [Chars(i, w.content[f.size..])] else [])
      else (if w.readable then [LastLines(i)] else [])
  }

  /** One pass over all files from index i on. */
  function Pass(files: seq<Follow>, prev: int, guest: seq<Option<View>>, i: nat): (int, seq<Out>)
    requires |files| == |guest| && i <= |files| && forall k | 0 <= k < |files| :: 0 <= files[k].size
    decreases |files| - i
  {
    if i == |files| then (prev, [])
    else
      var changed := Changed(files[i], guest[i]);
      var (last, more) := Pass(files, if changed then i else prev, guest, i + 1);
      (last, (if changed && i != prev then [Banner(i)] else []) + Printed(i, files[i], guest[i]) + more)
  }

  lemma PassStep(files: seq<Follow>, prev: int, guest: seq<Option<View>>, i: nat)
    requires |files| == |guest| && i < |files| && forall k | 0 <= k < |files| :: 0 <= files[k].size
    ensures var changed := Changed(files[i], guest[i]);
            var (last, more) := Pass(files, if changed then i else prev, guest, i + 1);
            Pass(files, prev, guest, i)
            == (last, (if changed && i != prev then [Banner(i)] else []) + Printed(i, files[i], guest[i]) + more)
  {
  }

  lemma PassEnd(files: seq<Follow>, prev: int, guest: seq<Option<View>>)
    requires |files| == |guest| && forall k | 0 <= k < |files| :: 0 <= files[k].size
    ensures Pass(files, prev, guest, |files|) == (prev, [])
  {
  }

  /** What one look at file i calls for: nothing when its time and size are as before or it cannot
      be read, its new content when it has grown by at most 10000 bytes, and else its last lines. */
  ghost predicate Shown(i: nat, f: Follow, v: Option<View>, out: seq<Out>) {
    if v.None? || (f.mtime == v.value.mtime && f.size == |v.value.content|) || !v.value.readable then out == []
    else if 1 <= |v.value.content| - f.size <= 10000 && 0 <= f.size then
      out == [Chars(i, v.value.content[f.size..])]
    else out == [LastLines(i)]
  }

  lemma PrintedIs(i: nat, f: Follow, v: Option<View>)
    requires 0 <= f.size
    ensures Shown(i, f, v, Printed(i, f, v))
  {
  }

  /** Reads an output with the name of a file in mind: the last name at its end, or None if
      something of another file comes up, or a name that is in mind already. */
  function Headed(current: int, out: seq<Out>): Option<int>
    decreases |out|
  {
    if out == [] then Some(current)
    else if out[0].Banner? then if out[0].i == current then None else Headed(out[0].i, out[1..])
    else if out[0].i == current then Headed(current, out[1..]) else None
  }

  lemma {:induction false} HeadedConcat(current: int, a: seq<Out>, b: seq<Out>)
    requires Headed(current, a).Some?
    ensures Headed(current, a + b) == Headed(Headed(current, a).value, b)
    decreases |a|
  {
    if a == [] {
      assert a + b == b;
    } else {
      assert (a + b)[1..] == a[1..] + b;
      HeadedConcat(if a[0].Banner? then a[0].i else current, a[1..], b);
    }
  }

  lemma HeadedOne(i: nat, prev: int, f: Follow, v: Option<View>)
    requires 0 <= f.size
    ensures var changed := Changed(f, v);
            var head := if changed && i != prev then [Banner(i)] else [];
            Headed(prev, head + Printed(i, f, v)) == Some(if changed then i else prev)
  {
    var p, empty: seq<Out> := Printed(i, f, v), [];
    var last := if Changed(f, v) then i else prev;
    assert p != [] ==> p[1..] == [] && p[0].i == i && !p[0].Banner?;
    assert Headed(last, p) == Some(last);
    if Changed(f, v) && i != prev {
      assert ([Banner(i)] + p)[0] == Banner(i) && ([Banner(i)] + p)[1..] == p;
    } else {
      assert empty + p == p;
    }
  }

  lemma {:induction false} PassHeaded(files: seq<Follow>, prev: int, guest: seq<Option<View>>, i: nat)
    requires |files| == |guest| && i <= |files| && forall k | 0 <= k < |files| :: 0 <= files[k].size
    ensures var (last, out) := Pass(files, prev, guest, i); Headed(prev, out) == Some(last)
    decreases |files| - i
  {
    hide Headed, Printed, Pass, Changed;
    if i < |files| {
      var changed := Changed(files[i], guest[i]);
      var next := if changed then i else prev;
      PassStep(files, prev, guest, i);
      HeadedOne(i, prev, files[i], guest[i]);
      PassHeaded(files, next, guest, i + 1);
      HeadedConcat(prev, (if changed && i != prev then [Banner(i)] else []) + Printed(i, files[i], guest[i]),
                   Pass(files, next, guest, i + 1).1);
    } else {
      PassEnd(files, prev, guest);
      HeadedNothing(prev);
    }
  }

  lemma HeadedNothing(current: int)
    ensures Headed(current, []) == Some(current)
  {
  }

  /** How many of the files are there. */
  function Found(guest: seq<Option<View>>): nat {
    if guest == [] then 0 else Found(guest[..|guest| - 1]) + if guest[|guest| - 1].Some? then 1 else 0
  }

  class Tailer {
    var file: array<Follow>
    var prevFileDisplayed: int
    var out: seq<Out>

    ghost predicate Valid()
      reads this, file
    {
      forall k | 0 <= k < file.Length :: 0 <= file[k].size
    }

    constructor (argc: nat)
      ensures Valid() && fresh(file) && file.Length == argc && prevFileDisplayed == -1 && out == []
      ensures forall k | 0 <= k < argc :: file[k] == Follow(0, 0)
    {
      file := new Follow[argc](_ => Follow(0, 0));
      prevFileDisplayed := -1;
      out := [];
    }

    /** Looks at every file once, prints what is new, and remembers what it saw. What is printed of
        a file stands under its name. */
    method CheckFiles(guest: seq<Option<View>>, now: int) returns (processed: nat, ghost news: seq<Out>)
      requires Valid() && |guest| == file.Length
      modifies this`prevFileDisplayed, this`out, file
      ensures Valid()
      ensures forall k | 0 <= k < file.Length ::
                file[k] == Remembered(old(file[k]), guest[k], now)
      ensures (prevFileDisplayed, news) == Pass(old(file[..]), old(prevFileDisplayed), guest, 0)
      ensures out == old(out) + news
      ensures forall j | 0 <= j < |guest| :: Shown(j, old(file[j]), guest[j], Of(j, news))
      ensures Headed(old(prevFileDisplayed), news) == Some(prevFileDisplayed)
      ensures processed == Found(guest)
    {
      hide Pass, Printed, Changed;
      ghost var files := file[..];
      ghost var p := Pass(files, prevFileDisplayed, guest, 0);
      processed := 0;
      var i := 0;
      assert out + p.1 == old(out) + p.1;
      while i < file.Length
        invariant i <= file.Length && Valid()
        invariant forall k | i <= k < file.Length :: file[k] == files[k]
        invariant forall k | 0 <= k < i :: file[k] == Remembered(files[k], guest[k], now)
        invariant var q := Pass(files, prevFileDisplayed, guest, i); q.0 == p.0 && out + q.1 == old(out) + p.1
        invariant processed == Found(guest[..i])
      {
        ghost var before, q := out, Pass(files, prevFileDisplayed, guest, i);
        PassStep(files, prevFileDisplayed, guest, i);
        assert guest[..i + 1][..i] == guest[..i];
        if guest[i].Some? { processed := processed + 1; }
        ghost var printed := CheckFile(i, guest[i], now);
        assert out + Pass(files, prevFileDisplayed, guest, i + 1).1 == before + q.1;
        i := i + 1;
      }
      PassEnd(files, prevFileDisplayed, guest);
      assert out + [] == out && guest[..i] == guest;
      news := p.1;
      hide Of, Shown, Headed, Remembered;
      forall j | 0 <= j < |guest| ensures Shown(j, old(file[j]), guest[j], Of(j, news)) {
        PassIndependent(files, old(prevFileDisplayed), guest, 0, j);
        PrintedIs(j, files[j], guest[j]);
      }
      PassHeaded(files, old(prevFileDisplayed), guest, 0);
    }

    /** One file: what is printed, and what is remembered of it. */
    method CheckFile(i: nat, v: Option<View>, now: int) returns (ghost printed: seq<Out>)
      requires Valid() && i < file.Length
      modifies this`prevFileDisplayed, this`out, file
      ensures file[i] == Remembered(old(file[i]), v, now)
      ensures forall k | 0 <= k < file.Length && k != i :: file[k] == old(file[k])
      ensures var changed := Changed(old(file[i]), v);
              && prevFileDisplayed == (if changed then i else old(prevFileDisplayed))
              && printed == (if changed && i != old(prevFileDisplayed) then [Banner(i)] else [])
                            + Printed(i, old(file[i]), v)
              && out == old(out) + printed
    {
      printed := [];
      if v.None? {
        file[i] := Follow(now, 0);
      } else {
        var w := v.value;
        if file[i].mtime != w.mtime || file[i].size != |w.content| {
          if i != prevFileDisplayed {
            out := out + [Banner(i)];
            printed := [Banner(i)];
          }
          prevFileDisplayed := i;
          var news := Printed(i, file[i], v);
          out := out + news;
          printed := printed + news;
          file[i] := Follow(w.mtime, |w.content|);
        }
      }
    }
  }

  /** The output that belongs to file i. */
  function Of(i: nat, out: seq<Out>): seq<Out> {
    if out == [] then []
    else (if out[0].i == i && !out[0].Banner? then [out[0]] else []) + Of(i, out[1..])
  }

  lemma {:induction false} OfConcat(i: nat, a: seq<Out>, b: seq<Out>)
    ensures Of(i, a + b) == Of(i, a) + Of(i, b)
    decreases |a|
  {
    if a == [] {
      assert a + b == b;
    } else {
      assert (a + b)[1..] == a[1..] + b;
      OfConcat(i, a[1..], b);
    }
  }

  lemma OfOne(j: nat, i: nat, f: Follow, v: Option<View>)
    requires 0 <= f.size
    ensures Of(j, Printed(i, f, v)) == if i == j then Printed(i, f, v) else []
    ensures Of(j, [Banner(i)]) == []
  {
    var p := Printed(i, f, v);
    assert p != [] ==> p[1..] == [];
    assert [Banner(i)][1..] == [];
  }

  lemma OfStep(j: nat, i: nat, f: Follow, v: Option<View>, head: seq<Out>, more: seq<Out>)
    requires 0 <= f.size && (head == [] || head == [Banner(i)])
    ensures Of(j, head + Printed(i, f, v) + more) == (if i == j then Printed(i, f, v) else []) + Of(j, more)
  {
    hide Of, Printed;
    OfOne(j, i, f, v);
    OfNothing(j);
    OfConcat(j, head + Printed(i, f, v), more);
    OfConcat(j, head, Printed(i, f, v));
  }

  /** A pass prints for each file what that file alone calls for. */
  lemma {:induction false} PassIndependent(files: seq<Follow>, prev: int, guest: seq<Option<View>>, i: nat, j: nat)
    requires |files| == |guest| && i <= |files| && j < |files|
    requires forall k | 0 <= k < |files| :: 0 <= files[k].size
    ensures Of(j, Pass(files, prev, guest, i).1) == if i <= j then Printed(j, files[j], guest[j]) else []
    decreases |files| - i
  {
    hide Of, Printed, Pass, Changed;
    if i < |files| {
      var changed := Changed(files[i], guest[i]);
      var head := if changed && i != prev then [Banner(i)] else [];
      var next := if changed then i else prev;
      PassStep(files, prev, guest, i);
      OfStep(j, i, files[i], guest[i], head, Pass(files, next, guest, i + 1).1);
      PassIndependent(files, next, guest, i + 1, j);
    } else {
      PassEnd(files, prev, guest);
      OfNothing(j);
    }
  }

  lemma OfNothing(j: nat)
    ensures Of(j, []) == []
  {
  }

  /** Looks at one file over time in which it is only appended to, at most a set amount between
      looks, and its time changes only when it grows, and every read succeeds. */
  ghost predicate Appended(views: seq<View>) {
    && (forall k | 0 <= k < |views| :: views[k].readable)
    && forall k | 0 <= k < |views| - 1 ::
         && views[k].content <= views[k + 1].content
         && |views[k + 1].content| <= |views[k].content| + A_LOT
         && (views[k].content == views[k + 1].content ==> views[k].mtime == views[k + 1].mtime)
  }

  /** All that is printed for file i at the looks after the first. */
  function PrintedSince(i: nat, views: seq<View>): seq<Out>
    requires views != []
  {
    if |views| == 1 then []
    else
      Printed(i, Follow(views[0].mtime, |views[0].content|), Some(views[1])) + PrintedSince(i, views[1..])
  }

  /** The characters of an output that holds nothing but characters. */
  function Text(out: seq<Out>): Option<string> {
    if out == [] then Some("")
    else if !out[0].Chars? || Text(out[1..]).None? then None
    else Some(out[0].text + Text(out[1..]).value)
  }

  /** After a size has been recorded, what is printed is exactly what was appended since: no
      character is lost or repeated. */
  lemma {:induction false} NothingLost(i: nat, views: seq<View>)
    requires views != [] && Appended(views)
    ensures views[0].content <= views[|views| - 1].content
    ensures Text(PrintedSince(i, views))
            == Some(views[|views| - 1].content[|views[0].content|..])
    decreases |views|
  {
    if |views| != 1 {
      var rest := views[1..];
      NothingLost(i, rest);
      hide Text, PrintedSince;
      var a, b, c := views[0].content, views[1].content, views[|views| - 1].content;
      assert c[|a|..] == b[|a|..] + c[|b|..];
      OneLook(i, views);
      TextFirst(i, b[|a|..], PrintedSince(i, rest));
    } else {
      NoText();
      var c := views[0].content;
      assert c[|c|..] == "" && PrintedSince(i, views) == [];
    }
  }

  /** What the look after the first adds. */
  lemma OneLook(i: nat, views: seq<View>)
    requires 2 <= |views| && Appended(views)
    ensures var a, b, more := views[0].content, views[1].content, PrintedSince(i, views[1..]);
            PrintedSince(i, views) == if |a| == |b| then more else [Chars(i, b[|a|..])] + more
  {
    SameLengthPrefix(views[0].content, views[1].content);
  }

  lemma TextFirst(i: nat, text: string, more: seq<Out>)
    ensures Text([Chars(i, text)] + more)
            == if Text(more).None? then None else Some(text + Text(more).value)
  {
    assert ([Chars(i, text)] + more)[1..] == more;
  }

  lemma NoText()
    ensures Text([]) == Some("")
  {
  }

  /** What a pass leaves remembered of all files. */
  function Updated(files: seq<Follow>, guest: seq<Option<View>>, now: int): (r: seq<Follow>)
    requires |files| == |guest|
    ensures |r| == |files| && forall k | 0 <= k < |r| :: r[k] == Remembered(files[k], guest[k], now)
  {
    seq(|files|, k requires 0 <= k < |files| => Remembered(files[k], guest[k], now))
  }

  /** The output of one pass after the other. */
  function Passes(files: seq<Follow>, prev: int, guests: seq<seq<Option<View>>>, times: seq<int>): seq<Out>
    requires |guests| == |times| && forall k | 0 <= k < |guests| :: |guests[k]| == |files|
    requires forall k | 0 <= k < |files| :: 0 <= files[k].size
    decreases |guests|
  {
    if guests == [] then []
    else
      var (last, out) := Pass(files, prev, guests[0], 0);
      out + Passes(Updated(files, guests[0], times[0]), last, guests[1..], times[1..])
  }

  lemma {:induction false} PassesOf(files: seq<Follow>, prev: int, guests: seq<seq<Option<View>>>,
                                    times: seq<int>, j: nat, views: seq<View>)
    requires |guests| == |times| && forall k | 0 <= k < |guests| :: |guests[k]| == |files|
    requires forall k | 0 <= k < |files| :: 0 <= files[k].size
    requires j < |files| && |views| == |guests| + 1
    requires files[j] == Follow(views[0].mtime, |views[0].content|)
    requires forall k | 0 <= k < |guests| :: guests[k][j] == Some(views[k + 1])
    ensures Of(j, Passes(files, prev, guests, times)) == PrintedSince(j, views)
    decreases |guests|
  {
    hide Of, Pass, Printed;
    if guests == [] {
      OfNothing(j);
    } else {
      var (last, out) := Pass(files, prev, guests[0], 0);
      var next := Updated(files, guests[0], times[0]);
      PassIndependent(files, prev, guests[0], 0, j);
      OfConcat(j, out, Passes(next, last, guests[1..], times[1..]));
      PassesOf(next, last, guests[1..], times[1..], j, views[1..]);
    }
  }

  /** Over any number of passes over any number of files, whatever becomes of the others: once
      the size of file j is recorded, and while it is only appended to, all that is printed of
      it is exactly what was appended. */
  lemma FollowedFile(files: seq<Follow>, prev: int, guests: seq<seq<Option<View>>>, times: seq<int>,
                     j: nat, views: seq<View>)
    requires |guests| == |times| && forall k | 0 <= k < |guests| :: |guests[k]| == |files|
    requires forall k | 0 <= k < |files| :: 0 <= files[k].size
    requires j < |files| && |views| == |guests| + 1 && Appended(views)
    requires files[j] == Follow(views[0].mtime, |views[0].content|)
    requires forall k | 0 <= k < |guests| :: guests[k][j] == Some(views[k + 1])
    ensures views[0].content <= views[|guests|].content
    ensures Text(Of(j, Passes(files, prev, guests, times)))
            == Some(views[|guests|].content[|views[0].content|..])
  {
    PassesOf(files, prev, guests, times, j, views);
    NothingLost(j, views);
  }

  lemma SameLengthPrefix(a: string, b: string)
    requires a <= b
    ensures |a| == |b| ==> a == b
  {
  }
}
