/** Printing an index and reading it back gives the same entries. */
module IndexRoundTrip {
  import opened Decimal
  import opened IndexScan
  import opened IndexGrammar
  import opened IndexEntry
  import opened StringOrder
  import opened Wrappers

  /** The keys in the order in which they are printed. */
  const KEYS: seq<string> := ["name", "osinfo", "file", "arch", "sig", "checksum", "revision", "format",
                              "size", "compressed_size", "expand", "lvexpand", "notes", "aliases", "hidden"]

  function OptField(key: string, value: Option<string>): seq<Field> {
    if value.None? then [] else [Field(key, None, value.value)]
  }

  function ChecksumFields(cs: seq<Checksum>): seq<Field> {
    if cs == [] then []
    else [Field("checksum", Some(ChecksumKind(cs[0])), cs[0].digest)] + ChecksumFields(cs[1..])
  }

  function NoteField(lang: string, notes: string): Field {
    Field("notes", if lang == "" then None else Some(lang), notes)
  }

  function NotesFields(notes: seq<(string, string)>): seq<Field> {
    if notes == [] then [] else [NoteField(notes[0].0, notes[0].1)] + NotesFields(notes[1..])
  }

  /** The fields an entry is printed as, one segment for each key. */
  function Segments(e: Entry): (r: seq<seq<Field>>)
    ensures |r| == 15
  {
    [OptField("name", e.printableName),
     OptField("osinfo", e.osinfo),
     [Field("file", None, e.fileUri)],
     [Field("arch", None, e.arch.name)],
     OptField("sig", e.signatureUri),
     if e.checksums.None? then [] else ChecksumFields(e.checksums.value),
     [Field("revision", None, StringOfRevision(e.revision))],
     OptField("format", e.format),
     [Field("size", None, IntText(e.size))],
     OptField("compressed_size", IntOption(e.compressedSize)),
     OptField("expand", e.expand),
     OptField("lvexpand", e.lvexpand),
     NotesFields(e.notes),
     OptField("aliases", AliasesText(e.aliases)),
     if e.hidden then [Field("hidden", None, "true")] else []]
  }

  function Flatten(segs: seq<seq<Field>>): seq<Field> {
    if segs == [] then [] else segs[0] + Flatten(segs[1..])
  }

  function FieldsOf(e: Entry): seq<Field> {
    Flatten(Segments(e))
  }

  predicate OptOneLine(v: Option<string>) {
    v.Some? ==> OneLine(v.value)
  }

  predicate LegalLanguage(lang: string) {
    AllSubkey(lang)
  }

  predicate SortedNotes(notes: seq<(string, string)>) {
    forall j, k | 0 <= j < k < |notes| :: Less(notes[j].0, notes[k].0)
  }

  predicate LegalNotes(notes: seq<(string, string)>) {
    SortedNotes(notes) && forall k | 0 <= k < |notes| :: LegalLanguage(notes[k].0)
  }

  predicate LegalAliases(a: Option<seq<string>>) {
    a.Some? ==> (&& a.value != []
                 && forall k | 0 <= k < |a.value| ::
                      a.value[k] != [] && ' ' !in a.value[k] && OneLine(a.value[k]))
  }

  /** What an entry must be for its text to stand for it. Notes may hold any lines at all. */
  predicate WellFormed(e: Entry) {
    && OptOneLine(e.printableName) && OptOneLine(e.osinfo) && OptOneLine(e.signatureUri)
    && OptOneLine(e.format) && OptOneLine(e.expand) && OptOneLine(e.lvexpand)
    && OneLine(e.fileUri) && RelativePath(e.fileUri)
    && (e.signatureUri.Some? ==> RelativePath(e.signatureUri.value))
    && e.arch.Arch? && OneLine(e.arch.name)
    && (e.checksums.Some? ==> |e.checksums.value| == 1 && e.checksums.value[0].SHA512?
                              && OneLine(e.checksums.value[0].digest))
    && e.revision.RevInt? && -MAX_INT - 1 <= e.revision.n <= MAX_INT
    && -MAX_INT64 - 1 <= e.size <= MAX_INT64
    && (e.compressedSize.Some? ==> -MAX_INT64 - 1 <= e.compressedSize.value <= MAX_INT64)
    && LegalNotes(e.notes) && LegalAliases(e.aliases)
  }

  predicate WellFormedIndex(entries: seq<(string, Entry)>) {
    && (forall k | 0 <= k < |entries| ::
          entries[k].0 != [] && AllName(entries[k].0) && WellFormed(entries[k].1))
    && forall j, k | 0 <= j < k < |entries| ::
         entries[j].0 != entries[k].0 || entries[j].1.arch.name != entries[k].1.arch.name
  }

  /** The entry with its paths resolved against the URI of the index. */
  function Resolved(e: Entry, uri: string): Entry
    requires WellFormed(e)
  {
    e.(fileUri := MakeAbsoluteUri(uri, e.fileUri).value,
       signatureUri := if e.signatureUri.None? then None else MakeAbsoluteUri(uri, e.signatureUri.value))
  }

  function ResolvedIndex(entries: seq<(string, Entry)>, uri: string): seq<(string, Entry)>
    requires forall k | 0 <= k < |entries| :: WellFormed(entries[k].1)
  {
    if entries == [] then []
    else [(entries[0].0, Resolved(entries[0].1, uri))] + ResolvedIndex(entries[1..], uri)
  }

  /** The entry read is the one written, but for its file and its signature, which are named
      beside the URI of the index. */
  ghost predicate ReadBack(r: Entry, e: Entry, uri: string) {
    && r == e.(fileUri := r.fileUri, signatureUri := r.signatureUri)
    && Beside(uri, e.fileUri, r.fileUri)
    && (r.signatureUri.Some? <==> e.signatureUri.Some?)
    && (e.signatureUri.Some? ==> Beside(uri, e.signatureUri.value, r.signatureUri.value))
  }

  ghost predicate AllReadBack(r: seq<(string, Entry)>, entries: seq<(string, Entry)>, uri: string) {
    && |r| == |entries|
    && forall k | 0 <= k < |entries| :: r[k].0 == entries[k].0 && ReadBack(r[k].1, entries[k].1, uri)
  }

  lemma ResolvedIs(e: Entry, uri: string)
    requires WellFormed(e)
    ensures ReadBack(Resolved(e, uri), e, uri)
  {
    hide MakeAbsoluteUri, Beside, OneLine;
    AbsoluteUri(uri, e.fileUri);
    if e.signatureUri.Some? { AbsoluteUri(uri, e.signatureUri.value); }
    Accepted(uri, e.fileUri);
    if e.signatureUri.Some? { Accepted(uri, e.signatureUri.value); }
  }

  lemma Accepted(uri: string, path: string)
    requires RelativePath(path)
    ensures MakeAbsoluteUri(uri, path).Some?
  {
  }

  lemma {:induction false} ResolvedIndexIs(entries: seq<(string, Entry)>, uri: string)
    requires forall k | 0 <= k < |entries| :: WellFormed(entries[k].1)
    ensures AllReadBack(ResolvedIndex(entries, uri), entries, uri)
    decreases |entries|
  {
    if entries != [] {
      hide WellFormed, Resolved, ReadBack;
      ResolvedIs(entries[0].1, uri);
      ResolvedIndexIs(entries[1..], uri);
    }
  }

  // ---- The text of an entry is the text of its fields

  lemma PrintOneLineField(key: string, subkey: Option<string>, value: string)
    requires OneLine(value)
    ensures PrintField(Field(key, subkey, value)) == FieldHead(key, subkey) + value + "\n"
  {
    SplitOneLine(value);
    assert PrintContinuations([]) == "";
  }

  lemma PrintSingle(f: Field)
    ensures PrintFields([f]) == PrintField(f)
  {
    assert [f][1..] == [];
  }

  lemma LineIsField(key: string, value: string)
    requires OneLine(value)
    ensures Line(key, value) == PrintFields([Field(key, None, value)])
  {
    PrintOneLineField(key, None, value);
    PrintSingle(Field(key, None, value));
    assert key + "" + "=" == key + "=";
  }

  lemma OptLineIsField(key: string, value: Option<string>)
    requires OptOneLine(value)
    ensures OptLine(key, value) == PrintFields(OptField(key, value))
  {
    if value.Some? { LineIsField(key, value.value); }
  }

  lemma {:induction false} IndentedIs(lines: seq<string>)
    requires lines != []
    ensures Indented(lines) + "\n" == lines[0] + "\n" + PrintContinuations(lines[1..])
    decreases |lines|
  {
    if |lines| == 1 {
      assert PrintContinuations(lines[1..]) == "";
    } else {
      IndentedIs(lines[1..]);
      assert lines[1..][0] == lines[1] && lines[1..][1..] == lines[2..];
      assert Indented(lines) + "\n" == lines[0] + "\n" + (" " + (Indented(lines[1..]) + "\n"));
      assert PrintContinuations(lines[1..]) == " " + lines[1] + "\n" + PrintContinuations(lines[2..]);
    }
  }

  lemma {:induction false} NotesAreFields(notes: seq<(string, string)>)
    ensures NotesLines(notes) == PrintFields(NotesFields(notes))
    decreases |notes|
  {
    if notes != [] {
      var (lang, text) := notes[0];
      NoteIsField(lang, text);
      NotesAreFields(notes[1..]);
      assert NotesFields(notes)[1..] == NotesFields(notes[1..]);
    }
  }

  lemma NoteIsField(lang: string, text: string)
    ensures NoteLine(lang, text) == PrintField(NoteField(lang, text))
  {
    hide FieldHead, Indented, PrintContinuations, Split;
    var lines := Split(text);
    var head := FieldHead("notes", if lang == "" then None else Some(lang));
    IndentedIs(lines);
    NoteHead(lang);
    assert head + Indented(lines) + "\n" == head + (Indented(lines) + "\n");
    assert head + lines[0] + "\n" + PrintContinuations(lines[1..])
           == head + (lines[0] + "\n" + PrintContinuations(lines[1..]));
  }

  lemma NoteHead(lang: string)
    ensures FieldHead("notes", if lang == "" then None else Some(lang))
            == if lang == "" then "notes=" else "notes[" + lang + "]="
  {
    assert "notes" + "" + "=" == "notes=";
    assert "notes" + ("[" + lang + "]") + "=" == "notes[" + lang + "]=";
  }

  lemma {:induction false} ChecksumIsField(cs: seq<Checksum>)
    requires |cs| == 1 && OneLine(cs[0].digest)
    ensures ChecksumLines(cs) == PrintFields(ChecksumFields(cs))
  {
    var kind, digest := ChecksumKind(cs[0]), cs[0].digest;
    assert cs[1..] == [];
    PrintOneLineField("checksum", Some(kind), digest);
    PrintSingle(Field("checksum", Some(kind), digest));
    assert ChecksumFields(cs) == [Field("checksum", Some(kind), digest)];
    assert "checksum" + ("[" + kind + "]") + "=" == "checksum[" + kind + "]=";
  }

  lemma {:induction false} FlattenPrints(segs: seq<seq<Field>>, pieces: seq<string>)
    requires |segs| == |pieces| && forall k | 0 <= k < |segs| :: pieces[k] == PrintFields(segs[k])
    ensures Concat(pieces) == PrintFields(Flatten(segs))
    decreases |segs|
  {
    if segs != [] {
      FlattenPrints(segs[1..], pieces[1..]);
      PrintFieldsConcat(segs[0], Flatten(segs[1..]));
    }
  }

  lemma {:induction false} PrintFieldsConcat(a: seq<Field>, b: seq<Field>)
    ensures PrintFields(a + b) == PrintFields(a) + PrintFields(b)
    decreases |a|
  {
    hide PrintField;
    if a == [] {
      assert a + b == b;
    } else {
      assert (a + b)[1..] == a[1..] + b;
      PrintFieldsConcat(a[1..], b);
    }
  }

  lemma PiecesAreSegments(e: Entry)
    requires WellFormed(e)
    ensures forall k | 0 <= k < 15 :: Pieces(e)[k] == PrintFields(Segments(e)[k])
  {
    hide Pieces, Segments, PrintFields;
    TextPieces(e);
    NumberPieces(e);
    ListPieces(e);
  }

  lemma TextPieces(e: Entry)
    requires WellFormed(e)
    ensures forall k | k in {0, 1, 2, 3, 4, 7, 10, 11} :: Pieces(e)[k] == PrintFields(Segments(e)[k])
  {
    hide PrintFields, IntText, Line, NotesLines, ChecksumLines, OptLine, OptField, Spaced, NotesFields,
         ChecksumFields;
    OptLineIsField("name", e.printableName);
    OptLineIsField("osinfo", e.osinfo);
    LineIsField("file", e.fileUri);
    LineIsField("arch", e.arch.name);
    OptLineIsField("sig", e.signatureUri);
    OptLineIsField("format", e.format);
    OptLineIsField("expand", e.expand);
    OptLineIsField("lvexpand", e.lvexpand);
  }

  lemma NumberPieces(e: Entry)
    requires WellFormed(e)
    ensures forall k | k in {6, 8, 9} :: Pieces(e)[k] == PrintFields(Segments(e)[k])
  {
    hide PrintFields, IntText, Line, NotesLines, ChecksumLines, OptLine, OptField, Spaced, NotesFields,
         ChecksumFields;
    ParseIntText(e.revision.n, MAX_INT);
    LineIsField("revision", StringOfRevision(e.revision));
    ParseIntText(e.size, MAX_INT64);
    LineIsField("size", IntText(e.size));
    if e.compressedSize.Some? { ParseIntText(e.compressedSize.value, MAX_INT64); }
    OptLineIsField("compressed_size", IntOption(e.compressedSize));
  }

  lemma ListPieces(e: Entry)
    requires WellFormed(e)
    ensures forall k | k in {5, 12, 13, 14} :: Pieces(e)[k] == PrintFields(Segments(e)[k])
  {
    hide PrintFields, IntText, Line, NotesLines, ChecksumLines, OptLine, OptField, Spaced, NotesFields,
         ChecksumFields;
    if e.checksums.Some? { ChecksumIsField(e.checksums.value); }
    NotesAreFields(e.notes);
    if e.aliases.Some? { SpacedOneLine(e.aliases.value); }
    OptLineIsField("aliases", AliasesText(e.aliases));
    HiddenPiece();
    NoFields();
  }

  lemma HiddenPiece()
    ensures PrintFields([Field("hidden", None, "true")]) == "hidden=true\n"
  {
    LineIsField("hidden", "true");
    assert "hidden" + "=" + "true" + "\n" == "hidden=true\n";
  }

  lemma NoFields()
    ensures PrintFields([]) == ""
  {
  }

  lemma EntryTextIs(name: string, e: Entry)
    requires WellFormed(e)
    ensures EntryText(name, e) == PrintSection(Section(name, FieldsOf(e)))
  {
    hide PrintFields, Pieces, Segments, Concat;
    PiecesAreSegments(e);
    FlattenPrints(Segments(e), Pieces(e));
  }

  lemma {:induction false} IndexTextIs(entries: seq<(string, Entry)>)
    requires forall k | 0 <= k < |entries| :: WellFormed(entries[k].1)
    ensures IndexText(entries) == PrintSections(SectionsOf(entries))
    decreases |entries|
  {
    hide WellFormed, EntryText, PrintSection, FieldsOf;
    if entries != [] {
      EntryTextIs(entries[0].0, entries[0].1);
      IndexTextIs(entries[1..]);
      assert SectionsOf(entries)[1..] == SectionsOf(entries[1..]);
    }
  }

  function SectionsOf(entries: seq<(string, Entry)>): (ss: seq<Section>)
    ensures |ss| == |entries|
    ensures forall k | 0 <= k < |ss| :: ss[k] == Section(entries[k].0, FieldsOf(entries[k].1))
  {
    if entries == [] then []
    else [Section(entries[0].0, FieldsOf(entries[0].1))] + SectionsOf(entries[1..])
  }

  // ---- The fields of an entry, looked up again

  /** Every field of segment k has key k. */
  ghost predicate Keyed(segs: seq<seq<Field>>, keys: seq<string>) {
    && |segs| == |keys|
    && forall k, j | 0 <= k < |segs| && 0 <= j < |segs[k]| :: segs[k][j].key == keys[k]
  }

  lemma {:induction false} LookupConcat(a: seq<Field>, b: seq<Field>, key: string, subkey: Option<string>)
    ensures Lookup(a + b, key, subkey)
            == if Lookup(a, key, subkey).Some? then Lookup(a, key, subkey) else Lookup(b, key, subkey)
    decreases |a|
  {
    if a == [] {
      assert a + b == b;
    } else {
      assert (a + b)[1..] == a[1..] + b;
      LookupConcat(a[1..], b, key, subkey);
    }
  }

  lemma {:induction false} LookupOtherKey(fs: seq<Field>, key: string, subkey: Option<string>)
    requires forall j | 0 <= j < |fs| :: fs[j].key != key
    ensures Lookup(fs, key, subkey) == None
    decreases |fs|
  {
    if fs != [] { LookupOtherKey(fs[1..], key, subkey); }
  }

  /** A key is looked up in its own segment only. */
  lemma {:induction false} LookupSegment(segs: seq<seq<Field>>, keys: seq<string>, i: nat,
                                         subkey: Option<string>)
    requires Keyed(segs, keys) && i < |keys|
    requires forall k | 0 <= k < |keys| && k != i :: keys[k] != keys[i]
    ensures Lookup(Flatten(segs), keys[i], subkey) == Lookup(segs[i], keys[i], subkey)
    decreases |segs|
  {
    hide Lookup;
    LookupConcat(segs[0], Flatten(segs[1..]), keys[i], subkey);
    if i == 0 {
      NotInSegments(segs[1..], keys[1..], keys[0], subkey);
    } else {
      LookupOtherKey(segs[0], keys[i], subkey);
      LookupSegment(segs[1..], keys[1..], i - 1, subkey);
    }
  }

  lemma {:induction false} NotInSegments(segs: seq<seq<Field>>, keys: seq<string>, key: string,
                                         subkey: Option<string>)
    requires Keyed(segs, keys) && key !in keys
    ensures Lookup(Flatten(segs), key, subkey) == None
    decreases |segs|
  {
    if segs != [] {
      hide Lookup;
      LookupConcat(segs[0], Flatten(segs[1..]), key, subkey);
      LookupOtherKey(segs[0], key, subkey);
      NotInSegments(segs[1..], keys[1..], key, subkey);
    } else {
      assert Flatten(segs) == [];
    }
  }

  lemma {:induction false} NotesConcat(a: seq<Field>, b: seq<Field>)
    ensures NotesOf(a + b) == NotesOf(a) + NotesOf(b)
    decreases |a|
  {
    if a == [] {
      assert a + b == b;
    } else {
      assert (a + b)[1..] == a[1..] + b;
      NotesConcat(a[1..], b);
    }
  }

  lemma {:induction false} NoNotes(fs: seq<Field>)
    requires forall j | 0 <= j < |fs| :: fs[j].key != "notes"
    ensures NotesOf(fs) == []
    decreases |fs|
  {
    if fs != [] { NoNotes(fs[1..]); }
  }

  lemma {:induction false} NotesOfSegments(segs: seq<seq<Field>>, keys: seq<string>, i: nat)
    requires Keyed(segs, keys) && i <= |keys|
    requires forall k | 0 <= k < |keys| && k != i :: keys[k] != "notes"
    ensures NotesOf(Flatten(segs)) == if i < |keys| then NotesOf(segs[i]) else []
    decreases |segs|
  {
    hide NotesOf;
    if segs == [] {
      NoNotes(Flatten(segs));
    } else {
      NotesConcat(segs[0], Flatten(segs[1..]));
      if i == 0 {
        NotesOfSegments(segs[1..], keys[1..], |keys| - 1);
      } else {
        NoNotes(segs[0]);
        NotesOfSegments(segs[1..], keys[1..], i - 1);
      }
    }
  }

  /** Length and first letter tell the keys apart. */
  function Mark(s: string): int {
    if s == [] then 0 else 256 * |s| + s[0] as int
  }

  lemma KeyMarks()
    ensures |KEYS| == 15
    ensures Mark(KEYS[0]) == 1134 && Mark(KEYS[1]) == 1647 && Mark(KEYS[2]) == 1126 && Mark(KEYS[3]) == 1121
    ensures Mark(KEYS[4]) == 883 && Mark(KEYS[5]) == 2147 && Mark(KEYS[6]) == 2162 && Mark(KEYS[7]) == 1638
    ensures Mark(KEYS[8]) == 1139 && Mark(KEYS[9]) == 3939 && Mark(KEYS[10]) == 1637 && Mark(KEYS[11]) == 2156
    ensures Mark(KEYS[12]) == 1390 && Mark(KEYS[13]) == 1889 && Mark(KEYS[14]) == 1640
  {
  }

  lemma KeysDistinct(i: nat)
    requires i < |KEYS|
    ensures forall k | 0 <= k < |KEYS| && k != i :: KEYS[k] != KEYS[i]
  {
    KeyMarks();
    forall k | 0 <= k < |KEYS| && k != i ensures Mark(KEYS[k]) != Mark(KEYS[i]) { }
  }

  lemma KeysLegal()
    ensures forall k | 0 <= k < |KEYS| :: LegalKey(KEYS[k], None)
  {
  }

  lemma {:induction false} NotesKeyed(notes: seq<(string, string)>)
    ensures var fs := NotesFields(notes);
            |fs| == |notes| && forall k | 0 <= k < |fs| :: fs[k] == NoteField(notes[k].0, notes[k].1)
    decreases |notes|
  {
    if notes != [] { NotesKeyed(notes[1..]); }
  }

  lemma SegmentsKeyed(e: Entry)
    requires WellFormed(e)
    ensures Keyed(Segments(e), KEYS)
  {
    hide Segments, WellFormed;
    var segs: seq<seq<Field>> := Segments(e);
    KeyMarks();
    forall k, j | 0 <= k < |segs| && 0 <= j < |segs[k]| ensures segs[k][j].key == KEYS[k] {
      if k == 12 {
        NotesSegment(e);
        NotesKeyed(e.notes);
      } else if k == 5 {
        ChecksumSegmentKey(e, j);
      } else {
        SegmentKey(e, k, j);
      }
    }
  }

  lemma SegmentKey(e: Entry, k: nat, j: nat)
    requires k < 15 && k != 5 && k != 12 && j < |Segments(e)[k]|
    ensures |KEYS| == 15 && Segments(e)[k][j].key == KEYS[k]
  {
    hide NotesFields, ChecksumFields;
  }

  lemma ChecksumSegmentKey(e: Entry, j: nat)
    requires WellFormed(e) && j < |Segments(e)[5]|
    ensures |KEYS| == 15 && Segments(e)[5][j].key == KEYS[5]
  {
    hide NotesFields;
    ChecksumKeyed(e);
  }

  lemma ChecksumKeyed(e: Entry)
    requires WellFormed(e)
    ensures e.checksums.Some? ==>
              ChecksumFields(e.checksums.value) == [Field("checksum", Some("sha512"), e.checksums.value[0].digest)]
  {
    if e.checksums.Some? {
      assert e.checksums.value[1..] == [];
    }
  }

  lemma FieldLookup(e: Entry, i: nat, subkey: Option<string>)
    requires WellFormed(e) && i < |KEYS|
    ensures Lookup(FieldsOf(e), KEYS[i], subkey) == Lookup(Segments(e)[i], KEYS[i], subkey)
  {
    hide WellFormed, Segments, Lookup;
    SegmentsKeyed(e);
    KeysDistinct(i);
    LookupSegment(Segments(e), KEYS, i, subkey);
  }

  lemma OneField(key: string, value: Option<string>)
    ensures Lookup(OptField(key, value), key, None) == value
  {
  }

  lemma OneLineField(key: string, value: string)
    ensures Lookup([Field(key, None, value)], key, None) == Some(value)
  {
  }

  /** Each field of a printed entry is found again. */
  lemma FieldsFound(e: Entry)
    requires WellFormed(e)
    ensures var fs := FieldsOf(e);
            && Lookup(fs, "name", None) == e.printableName
            && Lookup(fs, "osinfo", None) == e.osinfo
            && Lookup(fs, "file", None) == Some(e.fileUri)
            && Lookup(fs, "arch", None) == Some(e.arch.name)
            && Lookup(fs, "sig", None) == e.signatureUri
            && Lookup(fs, "revision", None) == Some(StringOfRevision(e.revision))
            && Lookup(fs, "format", None) == e.format
            && Lookup(fs, "size", None) == Some(IntText(e.size))
            && Lookup(fs, "compressed_size", None) == IntOption(e.compressedSize)
            && Lookup(fs, "expand", None) == e.expand
            && Lookup(fs, "lvexpand", None) == e.lvexpand
            && Lookup(fs, "aliases", None) == AliasesText(e.aliases)
  {
    hide WellFormed, FieldsOf, Lookup, OptField, IntText;
    FieldLookup(e, 0, None);   OneField("name", e.printableName);
    FieldLookup(e, 1, None);   OneField("osinfo", e.osinfo);
    FieldLookup(e, 2, None);   OneLineField("file", e.fileUri);
    FieldLookup(e, 3, None);   OneLineField("arch", e.arch.name);
    FieldLookup(e, 4, None);   OneField("sig", e.signatureUri);
    FieldLookup(e, 6, None);   OneLineField("revision", StringOfRevision(e.revision));
    FieldLookup(e, 7, None);   OneField("format", e.format);
    FieldLookup(e, 8, None);   OneLineField("size", IntText(e.size));
    FieldLookup(e, 9, None);   OneField("compressed_size", IntOption(e.compressedSize));
    FieldLookup(e, 10, None);  OneField("expand", e.expand);
    FieldLookup(e, 11, None);  OneField("lvexpand", e.lvexpand);
    FieldLookup(e, 13, None);  OneField("aliases", AliasesText(e.aliases));
  }

  lemma ChecksumsFound(e: Entry)
    requires WellFormed(e)
    ensures Checksums(FieldsOf(e)) == e.checksums
  {
    FieldLookup(e, 5, Some("sha512"));
    FieldLookup(e, 5, None);
    ChecksumKeyed(e);
    hide FieldsOf;
    if e.checksums.Some? {
      assert e.checksums.value == [SHA512(e.checksums.value[0].digest)];
    }
  }

  lemma HiddenFound(e: Entry)
    requires WellFormed(e)
    ensures Hidden(Lookup(FieldsOf(e), "hidden", None)) == Flag(e.hidden)
  {
    FieldLookup(e, 14, None);
    hide FieldsOf;
    OneLineField("hidden", "true");
  }

  lemma {:induction false} NotesOfFields(notes: seq<(string, string)>)
    ensures NotesOf(NotesFields(notes)) == notes
    decreases |notes|
  {
    if notes != [] {
      NotesOfFields(notes[1..]);
      assert NotesFields(notes)[1..] == NotesFields(notes[1..]);
      assert [notes[0]] + notes[1..] == notes;
    }
  }

  lemma {:induction false} SortSorted(notes: seq<(string, string)>)
    requires SortedNotes(notes)
    ensures Sort(notes) == notes
    decreases |notes|
  {
    if notes != [] {
      SortSorted(notes[1..]);
      if 1 < |notes| { LessAsymmetric(notes[0].0, notes[1].0); }
      assert [notes[0]] + notes[1..] == notes;
    }
  }

  lemma NotesFound(e: Entry)
    requires WellFormed(e)
    ensures Sort(NotesOf(FieldsOf(e))) == e.notes
  {
    hide NotesOf, Sort, Segments;
    SegmentsKeyed(e);
    KeysDistinct(12);
    NotesOfSegments(Segments(e), KEYS, 12);
    NotesSegment(e);
    NotesOfFields(e.notes);
    SortSorted(e.notes);
  }

  lemma NotesSegment(e: Entry)
    ensures Segments(e)[12] == NotesFields(e.notes)
  {
  }

  lemma AliasesFound(a: Option<seq<string>>)
    requires LegalAliases(a)
    ensures a == if AliasesText(a).None? then None else Some(Words(AliasesText(a).value))
  {
    if a.Some? { WordsSpaced(a.value); }
  }

  /** Building an entry from its own fields gives it back with its paths resolved. */
  lemma EntryFound(e: Entry, uri: string)
    requires WellFormed(e)
    ensures EntryOf(FieldsOf(e), uri) == Some(Resolved(e, uri)) && ReadBack(Resolved(e, uri), e, uri)
  {
    ResolvedIs(e, uri);
    hide ReadBack, FieldsOf, Lookup, Checksums, Hidden, NotesOf, Sort, IntText, ParseInt, AliasesText, Words;
    FieldsFound(e);
    ChecksumsFound(e);
    HiddenFound(e);
    NotesFound(e);
    AliasesFound(e.aliases);
    ParseIntText(e.revision.n, MAX_INT);
    ParseIntText(e.size, MAX_INT64);
    if e.compressedSize.Some? { ParseIntText(e.compressedSize.value, MAX_INT64); }
    assert e.arch == Arch(e.arch.name) && e.revision == RevInt(e.revision.n);
  }

  // ---- Nothing in a printed index is refused

  lemma {:induction false} NotRepeatedConcat(a: seq<Field>, b: seq<Field>)
    requires !RepeatedField(a) && !RepeatedField(b)
    requires forall j | 0 <= j < |a| :: Lookup(b, a[j].key, a[j].subkey) == None
    ensures !RepeatedField(a + b)
    decreases |a|
  {
    if a == [] {
      assert a + b == b;
    } else {
      assert (a + b)[1..] == a[1..] + b;
      LookupConcat(a[1..], b, a[0].key, a[0].subkey);
      NotRepeatedConcat(a[1..], b);
    }
  }

  lemma {:induction false} NotRepeatedSegments(segs: seq<seq<Field>>, keys: seq<string>)
    requires Keyed(segs, keys) && forall j, k | 0 <= j < k < |keys| :: keys[j] != keys[k]
    requires forall k | 0 <= k < |segs| :: !RepeatedField(segs[k])
    ensures !RepeatedField(Flatten(segs))
    decreases |segs|
  {
    if segs != [] {
      hide RepeatedField, Lookup;
      NotRepeatedSegments(segs[1..], keys[1..]);
      forall j | 0 <= j < |segs[0]|
        ensures Lookup(Flatten(segs[1..]), segs[0][j].key, segs[0][j].subkey) == None
      {
        NotInSegments(segs[1..], keys[1..], keys[0], segs[0][j].subkey);
      }
      NotRepeatedConcat(segs[0], Flatten(segs[1..]));
    }
  }

  lemma {:induction false} LookupAbsent(fs: seq<Field>, key: string, subkey: Option<string>)
    requires forall j | 0 <= j < |fs| :: fs[j].subkey != subkey
    ensures Lookup(fs, key, subkey) == None
    decreases |fs|
  {
    if fs != [] { LookupAbsent(fs[1..], key, subkey); }
  }

  lemma {:induction false} NotesNotRepeated(notes: seq<(string, string)>)
    requires SortedNotes(notes)
    ensures !RepeatedField(NotesFields(notes))
    decreases |notes|
  {
    if notes != [] {
      var f, more := NoteField(notes[0].0, notes[0].1), NotesFields(notes[1..]);
      NotesKeyed(notes[1..]);
      forall j | 0 <= j < |more| ensures more[j].subkey != f.subkey {
        LessAsymmetric(notes[0].0, notes[j + 1].0);
      }
      LookupAbsent(more, f.key, f.subkey);
      NotesNotRepeated(notes[1..]);
      assert NotesFields(notes)[1..] == more;
    }
  }

  lemma FewNotRepeated(fs: seq<Field>)
    requires |fs| <= 1
    ensures !RepeatedField(fs)
  {
    if fs != [] { assert fs[1..] == []; }
  }

  lemma FieldsNotRepeated(e: Entry)
    requires WellFormed(e)
    ensures !RepeatedField(FieldsOf(e))
  {
    hide RepeatedField;
    var segs: seq<seq<Field>> := Segments(e);
    SegmentsKeyed(e);
    NotesNotRepeated(e.notes);
    NotesSegment(e);
    ChecksumKeyed(e);
    forall k | 0 <= k < |segs| ensures !RepeatedField(segs[k]) {
      if k != 12 { SegmentShort(e, k); FewNotRepeated(segs[k]); }
    }
    KeyMarks();
    forall j, k | 0 <= j < k < |KEYS| ensures KEYS[j] != KEYS[k] { KeysDistinct(k); }
    hide Segments, WellFormed;
    NotRepeatedSegments(segs, KEYS);
  }

  lemma SegmentShort(e: Entry, k: nat)
    requires WellFormed(e) && k < 15 && k != 12
    ensures |Segments(e)[k]| <= 1
  {
    hide NotesFields;
    ChecksumKeyed(e);
  }

  lemma {:induction false} FlattenMember(segs: seq<seq<Field>>, j: nat) returns (k: nat, l: nat)
    requires j < |Flatten(segs)|
    ensures k < |segs| && l < |segs[k]| && segs[k][l] == Flatten(segs)[j]
    decreases |segs|
  {
    if j < |segs[0]| {
      k, l := 0, j;
    } else {
      k, l := FlattenMember(segs[1..], j - |segs[0]|);
      k := k + 1;
    }
  }

  lemma FieldsLegal(e: Entry)
    requires WellFormed(e)
    ensures LegalFields(FieldsOf(e))
  {
    var fs: seq<Field> := FieldsOf(e);
    SegmentsKeyed(e);
    KeysLegal();
    forall j | 0 <= j < |fs| ensures LegalKey(fs[j].key, fs[j].subkey) {
      var k, l := FlattenMember(Segments(e), j);
      SubkeyLegal(e, k, l);
    }
  }

  lemma SubkeyLegal(e: Entry, k: nat, l: nat)
    requires WellFormed(e) && k < 15 && l < |Segments(e)[k]|
    ensures var sub := Segments(e)[k][l].subkey;
            sub.Some? ==> sub.value != [] && AllSubkey(sub.value)
  {
    hide Segments;
    if k == 12 {
      NotesSegment(e);
      NotesKeyed(e.notes);
    } else if k == 5 {
      ChecksumSegment(e);
      assert AllSubkey("sha512");
    } else {
      NoSubkey(e, k, l);
    }
  }

  lemma ChecksumSegment(e: Entry)
    requires WellFormed(e)
    ensures forall l | 0 <= l < |Segments(e)[5]| :: Segments(e)[5][l].subkey == Some("sha512")
  {
    hide NotesFields;
    ChecksumKeyed(e);
  }

  lemma NoSubkey(e: Entry, k: nat, l: nat)
    requires k < 15 && k != 5 && k != 12 && l < |Segments(e)[k]|
    ensures Segments(e)[k][l].subkey == None
  {
    hide NotesFields, ChecksumFields;
  }

  lemma SectionsNotRepeated(entries: seq<(string, Entry)>)
    requires WellFormedIndex(entries)
    ensures !RepeatedSection(SectionsOf(entries))
    decreases |entries|
  {
    if entries != [] {
      hide WellFormed, FieldsOf;
      var ss := SectionsOf(entries);
      forall k | 0 <= k < |entries| ensures FindArch(ss[k].fields) == entries[k].1.arch.name {
        FieldsFound(entries[k].1);
      }
      SectionsNotRepeated(entries[1..]);
      assert ss[1..] == SectionsOf(entries[1..]);
    }
  }

  lemma {:induction false} EntriesFound(entries: seq<(string, Entry)>, uri: string)
    requires forall k | 0 <= k < |entries| :: WellFormed(entries[k].1)
    ensures EntriesOf(SectionsOf(entries), uri) == Some(ResolvedIndex(entries, uri))
    decreases |entries|
  {
    if entries != [] {
      hide WellFormed, FieldsOf, EntryOf, Resolved;
      EntryFound(entries[0].1, uri);
      EntriesFound(entries[1..], uri);
      assert SectionsOf(entries)[1..] == SectionsOf(entries[1..]);
    }
  }

  /** Writing any list of well-formed entries and reading the text back gives the same entries,
      with the paths of their files resolved against the URI of the index. */
  lemma {:induction false} IndexRoundTrip(entries: seq<(string, Entry)>, uri: string)
    requires WellFormedIndex(entries)
    ensures GetIndex(IndexText(entries), uri) == Ok(ResolvedIndex(entries, uri))
    ensures AllReadBack(ResolvedIndex(entries, uri), entries, uri)
  {
    hide ResolvedIndex, AllReadBack, WellFormed, FieldsOf, PrintSections, LegalFields, RepeatedField,
         RepeatedSection, EntriesOf, ReadSections;
    var ss := SectionsOf(entries);
    IndexTextIs(entries);
    forall k | 0 <= k < |ss| ensures LegalFields(ss[k].fields) && !RepeatedField(ss[k].fields) {
      FieldsLegal(entries[k].1);
      FieldsNotRepeated(entries[k].1);
    }
    SectionsRoundTrip(ss);
    SectionsNotRepeated(entries);
    EntriesFound(entries, uri);
    ResolvedIndexIs(entries, uri);
  }
}
