/** The steps that print an entry to a channel, and the tables that look for repetitions. */
module IndexChannel {
  import opened IndexScan
  import opened IndexGrammar
  import opened IndexEntry
  import opened Wrappers

  class Channel {
    var text: string

    constructor ()
      ensures text == ""
    {
      text := "";
    }

    method Fp(s: string)
      modifies this
      ensures text == old(text) + s
    {
      text := text + s;
    }

    /** The same, if there is a value to print. */
    method FpOption(key: string, value: Option<string>)
      modifies this
      ensures text == old(text) + OptLine(key, value)
    {
      if value.Some? { Fp(Line(key, value.value)); }
    }

    method WriteChecksums(cs: seq<Checksum>)
      modifies this
      ensures text == old(text) + ChecksumLines(cs)
    {
      var k := 0;
      while k < |cs|
        invariant k <= |cs| && text + ChecksumLines(cs[k..]) == old(text) + ChecksumLines(cs)
      {
        var line := "checksum[" + ChecksumKind(cs[k]) + "]=" + cs[k].digest + "\n";
        assert ChecksumLines(cs[k..]) == line + ChecksumLines(cs[k + 1..]) by { assert cs[k..][1..] == cs[k + 1..]; }
        assert text + ChecksumLines(cs[k..]) == (text + line) + ChecksumLines(cs[k + 1..]);
        Fp(line);
        k := k + 1;
      }
      assert text + "" == text;
    }

    method WriteNotes(notes: seq<(string, string)>)
      modifies this
      ensures text == old(text) + NotesLines(notes)
    {
      var k := 0;
      while k < |notes|
        invariant k <= |notes| && text + NotesLines(notes[k..]) == old(text) + NotesLines(notes)
      {
        var line := NoteLine(notes[k].0, notes[k].1);
        hide NoteLine;
        assert NotesLines(notes[k..]) == line + NotesLines(notes[k + 1..]) by {
          assert notes[k..][1..] == notes[k + 1..];
        }
        assert text + NotesLines(notes[k..]) == (text + line) + NotesLines(notes[k + 1..]);
        Fp(line);
        k := k + 1;
      }
      assert text + "" == text;
    }

    /** Prints the next of the pieces that follow `start`. */
    method Piece(s: string, ghost start: string, ghost p: seq<string>, ghost k: nat)
      requires k < |p| && s == p[k] && text == start + Concat(p[..k])
      modifies this
      ensures text == start + Concat(p[..k + 1])
    {
      Joined(start, p, k, text + s);
      Fp(s);
    }

    method OptionPiece(key: string, value: Option<string>, ghost start: string, ghost p: seq<string>, ghost k: nat)
      requires k < |p| && OptLine(key, value) == p[k] && text == start + Concat(p[..k])
      modifies this
      ensures text == start + Concat(p[..k + 1])
    {
      Joined(start, p, k, text + OptLine(key, value));
      FpOption(key, value);
    }

    /** Prints an entry, step by step. */
    method WriteEntry(name: string, e: Entry)
      modifies this
      ensures text == old(text) + EntryText(name, e)
    {
      hide Concat, Pieces;
      ghost var before, p := text, Pieces(e);
      var head := "[" + name + "]\n";
      Fp(head);
      NoPieces(text, p);
      ghost var start := text;
      WriteFirst(e, start);
      WriteRest(e, start);
      Fp("\n");
      assert p[..15] == p;
      assert text == before + (head + Concat(p) + "\n");
    }

    /** From the name to the format. */
    method WriteFirst(e: Entry, ghost start: string)
      requires text == start + Concat(Pieces(e)[..0])
      modifies this
      ensures text == start + Concat(Pieces(e)[..8])
    {
      WriteNames(e, start);
      hide Concat, OptLine, Line, ChecksumLines, NotesLines, IntText, AliasesText, StringOfRevision;
      ghost var p := Pieces(e);
      ChecksumsPiece(e, start, p);
      Piece(Line("revision", StringOfRevision(e.revision)), start, p, 6);
      OptionPiece("format", e.format, start, p, 7);
    }

    /** From the name to the signature. */
    method WriteNames(e: Entry, ghost start: string)
      requires text == start + Concat(Pieces(e)[..0])
      modifies this
      ensures text == start + Concat(Pieces(e)[..5])
    {
      hide Concat, OptLine, Line, ChecksumLines, NotesLines, IntText, AliasesText, StringOfRevision;
      ghost var p := Pieces(e);
      OptionPiece("name", e.printableName, start, p, 0);
      OptionPiece("osinfo", e.osinfo, start, p, 1);
      Piece(Line("file", e.fileUri), start, p, 2);
      Piece(Line("arch", e.arch.name), start, p, 3);
      OptionPiece("sig", e.signatureUri, start, p, 4);
    }

    /** From the size to the hidden flag. */
    method WriteRest(e: Entry, ghost start: string)
      requires text == start + Concat(Pieces(e)[..8])
      modifies this
      ensures text == start + Concat(Pieces(e)[..15])
    {
      hide Concat, OptLine, Line, ChecksumLines, NotesLines, IntText, AliasesText, StringOfRevision;
      ghost var p := Pieces(e);
      Piece(Line("size", IntText(e.size)), start, p, 8);
      OptionPiece("compressed_size", IntOption(e.compressedSize), start, p, 9);
      OptionPiece("expand", e.expand, start, p, 10);
      OptionPiece("lvexpand", e.lvexpand, start, p, 11);
      Joined(start, p, 12, text + NotesLines(e.notes));
      WriteNotes(e.notes);
      OptionPiece("aliases", AliasesText(e.aliases), start, p, 13);
      Joined(start, p, 14, text + p[14]);
      if e.hidden { Fp("hidden=true\n"); } else { assert text + "" == text; }
    }

    method ChecksumsPiece(e: Entry, ghost start: string, ghost p: seq<string>)
      requires p == Pieces(e) && text == start + Concat(p[..5])
      modifies this
      ensures text == start + Concat(p[..6])
    {
      hide Concat, OptLine, Line, ChecksumLines, NotesLines, IntText, AliasesText, StringOfRevision;
      Joined(start, p, 5, text + p[5]);
      if e.checksums.Some? { WriteChecksums(e.checksums.value); } else { assert text + "" == text; }
    }
  }

  lemma NoPieces(start: string, p: seq<string>)
    ensures start == start + Concat(p[..0])
  {
    assert p[..0] == [];
  }

  /** After piece k has been printed. */
  lemma Joined(start: string, p: seq<string>, k: nat, text: string)
    requires k < |p|
    ensures text == start + Concat(p[..k]) + p[k] ==> text == start + Concat(p[..k + 1])
  {
    assert p[..k + 1] == p[..k] + [p[k]];
    ConcatLast(p[..k], p[k]);
    assert start + Concat(p[..k]) + p[k] == start + (Concat(p[..k]) + p[k]);
  }

  lemma {:induction false} ConcatLast(p: seq<string>, last: string)
    ensures Concat(p + [last]) == Concat(p) + last
    decreases |p|
  {
    if p == [] {
      assert p + [last] == [last] && [last][1..] == [];
    } else {
      assert (p + [last])[1..] == p[1..] + [last];
      ConcatLast(p[1..], last);
    }
  }

  /** A table of name and architecture pairs finds a repeated section. */
  method FindRepeatedSection(ss: seq<Section>) returns (repeated: bool)
    ensures repeated <==> RepeatedSection(ss)
  {
    var seen: set<(string, string)> := {};
    var k := 0;
    while k < |ss|
      invariant k <= |ss|
      invariant seen == set j | 0 <= j < k :: (ss[j].name, FindArch(ss[j].fields))
      invariant forall i, j | 0 <= i < j < k ::
                  ss[i].name != ss[j].name || FindArch(ss[i].fields) != FindArch(ss[j].fields)
    {
      var id := (ss[k].name, FindArch(ss[k].fields));
      if id in seen {
        var j :| 0 <= j < k && id == (ss[j].name, FindArch(ss[j].fields));
        RepeatedPair(ss, j, k);
        return true;
      }
      seen := seen + {id};
      k := k + 1;
    }
    NoRepeatedPair(ss);
    return false;
  }

  lemma {:induction false} RepeatedPair(ss: seq<Section>, j: nat, k: nat)
    requires j < k < |ss| && ss[j].name == ss[k].name && FindArch(ss[j].fields) == FindArch(ss[k].fields)
    ensures RepeatedSection(ss)
    decreases |ss|
  {
    if 0 < j { RepeatedPair(ss[1..], j - 1, k - 1); }
  }

  lemma {:induction false} NoRepeatedPair(ss: seq<Section>)
    requires forall i, j | 0 <= i < j < |ss| ::
               ss[i].name != ss[j].name || FindArch(ss[i].fields) != FindArch(ss[j].fields)
    ensures !RepeatedSection(ss)
    decreases |ss|
  {
    if ss != [] { NoRepeatedPair(ss[1..]); }
  }

  /** A table of keys and subkeys finds a repeated field. */
  method FindRepeatedField(fs: seq<Field>) returns (repeated: bool)
    ensures repeated <==> RepeatedField(fs)
  {
    var seen: set<(string, Option<string>)> := {};
    var k := 0;
    while k < |fs|
      invariant k <= |fs|
      invariant seen == set j | 0 <= j < k :: (fs[j].key, fs[j].subkey)
      invariant forall i, j | 0 <= i < j < k :: fs[i].key != fs[j].key || fs[i].subkey != fs[j].subkey
    {
      var hashkey := (fs[k].key, fs[k].subkey);
      if hashkey in seen {
        var j :| 0 <= j < k && hashkey == (fs[j].key, fs[j].subkey);
        RepeatedKey(fs, j, k);
        return true;
      }
      seen := seen + {hashkey};
      k := k + 1;
    }
    NoRepeatedKey(fs);
    return false;
  }

  lemma {:induction false} LookupFinds(fs: seq<Field>, k: nat)
    requires k < |fs|
    ensures Lookup(fs, fs[k].key, fs[k].subkey).Some?
    decreases |fs|
  {
    if 0 < k { LookupFinds(fs[1..], k - 1); }
  }

  lemma {:induction false} RepeatedKey(fs: seq<Field>, j: nat, k: nat)
    requires j < k < |fs| && fs[j].key == fs[k].key && fs[j].subkey == fs[k].subkey
    ensures RepeatedField(fs)
    decreases |fs|
  {
    if 0 < j { RepeatedKey(fs[1..], j - 1, k - 1); } else { LookupFinds(fs[1..], k - 1); }
  }

  lemma {:induction false} NoRepeatedKey(fs: seq<Field>)
    requires forall i, j | 0 <= i < j < |fs| :: fs[i].key != fs[j].key || fs[i].subkey != fs[j].subkey
    ensures !RepeatedField(fs)
    decreases |fs|
  {
    if fs != [] {
      NotFound(fs[1..], fs[0].key, fs[0].subkey);
      NoRepeatedKey(fs[1..]);
    }
  }

  lemma {:induction false} NotFound(fs: seq<Field>, key: string, subkey: Option<string>)
    requires forall j | 0 <= j < |fs| :: fs[j].key != key || fs[j].subkey != subkey
    ensures Lookup(fs, key, subkey) == None
    decreases |fs|
  {
    if fs != [] { NotFound(fs[1..], key, subkey); }
  }
}
