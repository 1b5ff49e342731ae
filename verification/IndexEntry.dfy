/** Index entries: how they are printed as sections and built from sections again. */
module IndexEntry {
  import opened Decimal
  import opened IndexScan
  import opened IndexGrammar
  import opened StringOrder
  import opened Wrappers

  datatype Arch = Arch(name: string) | GuessedArch(name: string)
  datatype Revision = RevInt(n: int) | RevString(s: string)
  datatype Checksum = SHA1(digest: string) | SHA256(digest: string) | SHA512(digest: string)

  datatype Entry = Entry(
    printableName: Option<string>, osinfo: Option<string>, fileUri: string, arch: Arch,
    signatureUri: Option<string>, checksums: Option<seq<Checksum>>, revision: Revision,
    format: Option<string>, size: int, compressedSize: Option<int>, expand: Option<string>,
    lvexpand: Option<string>, notes: seq<(string, string)>, hidden: bool, aliases: Option<seq<string>>)

  datatype Result = Ok(entries: seq<(string, Entry)>) | SyntaxError | Corrupt

  /** OCaml's int and int64. */
  const MAX_INT: int := 0x3FFF_FFFF_FFFF_FFFF
  const MAX_INT64: int := 0x7FFF_FFFF_FFFF_FFFF

  function IntText(n: int): string {
    if n < 0 then "-" + Numeral(-n) else Numeral(n)
  }

  /** Reads a decimal numeral with an optional minus sign, within -max-1 to max. */
  function ParseInt(s: string, max: int): Option<int> {
    var negative := s != [] && s[0] == '-';
    var digits := if negative then s[1..] else s;
    if digits == [] || !AllDigits(digits) then None
    else
      var n: int := if negative then 0 - Value(digits) else Value(digits);
      if -max - 1 <= n <= max then Some(n) else None
  }

  lemma ParseIntText(n: int, max: int)
    requires -max - 1 <= n <= max
    ensures ParseInt(IntText(n), max) == Some(n) && OneLine(IntText(n))
    ensures 0 <= n ==> IntText(n) == Numeral(n)
  {
    hide Numeral, Value;
    var digits := Numeral(if n < 0 then -n else n);
    NumeralValue(if n < 0 then -n else n);
    assert IsDigit(digits[0]);
    DigitsOneLine(digits);
    if n < 0 {
      assert IntText(n) == "-" + digits && IntText(n)[1..] == digits;
    }
  }

  lemma DigitsOneLine(s: string)
    requires AllDigits(s)
    ensures OneLine(s) && OneLine("-" + s)
  {
  }

  /** The words of a string between single spaces. */
  function Words(s: string): (r: seq<string>)
    ensures r != []
    decreases |s|
  {
    var k := Find(s, ' ');
    if k == |s| then [s] else [s[..k]] + Words(s[k + 1..])
  }

  function Spaced(words: seq<string>): string
    requires words != []
  {
    if |words| == 1 then words[0] else words[0] + " " + Spaced(words[1..])
  }

  lemma {:induction false} WordsSpaced(words: seq<string>)
    requires words != [] && forall k | 0 <= k < |words| :: ' ' !in words[k]
    ensures Words(Spaced(words)) == words
    decreases |words|
  {
    if |words| == 1 {
      NoSpace(words[0]);
    } else {
      hide Words;
      WordThenRest(words[0], Spaced(words[1..]));
      WordsSpaced(words[1..]);
      assert [words[0]] + words[1..] == words;
    }
  }

  lemma NoSpace(w: string)
    requires ' ' !in w
    ensures Words(w) == [w]
  {
  }

  lemma WordThenRest(w: string, rest: string)
    requires ' ' !in w
    ensures Words(w + " " + rest) == [w] + Words(rest)
  {
    var s := w + " " + rest;
    forall j | 0 <= j < |w| ensures s[j] != ' ' { assert w[j] in w; }
    FindIs(s, ' ', |w|);
    assert s[..|w|] == w && s[|w| + 1..] == rest;
  }

  lemma {:induction false} SpacedOneLine(words: seq<string>)
    requires words != [] && forall k | 0 <= k < |words| :: OneLine(words[k])
    ensures OneLine(Spaced(words))
    decreases |words|
  {
    if |words| != 1 { SpacedOneLine(words[1..]); }
  }

  // ---- Printing

  function Line(key: string, value: string): string {
    key + "=" + value + "\n"
  }

  function OptLine(key: string, value: Option<string>): string {
    if value.None? then "" else Line(key, value.value)
  }

  function StringOfRevision(r: Revision): string {
    if r.RevInt? then IntText(r.n) else r.s
  }

  function ChecksumKind(c: Checksum): string {
    match c
    case SHA1(_) => "sha1"
    case SHA256(_) => "sha256"
    case SHA512(_) => "sha512"
  }

  function ChecksumLines(cs: seq<Checksum>): string {
    if cs == [] then ""
    else "checksum[" + ChecksumKind(cs[0]) + "]=" + cs[0].digest + "\n" + ChecksumLines(cs[1..])
  }

  /** Lines joined by a newline and a blank, as notes are laid out. */
  function Indented(lines: seq<string>): string
    requires lines != []
  {
    if |lines| == 1 then lines[0] else lines[0] + "\n " + Indented(lines[1..])
  }

  function NoteLine(lang: string, notes: string): string {
    (if lang == "" then "notes=" else "notes[" + lang + "]=") + Indented(Split(notes)) + "\n"
  }

  function NotesLines(notes: seq<(string, string)>): string {
    if notes == [] then "" else NoteLine(notes[0].0, notes[0].1) + NotesLines(notes[1..])
  }

  function IntOption(n: Option<int>): Option<string> {
    if n.None? then None else Some(IntText(n.value))
  }

  function AliasesText(a: Option<seq<string>>): Option<string> {
    if a.None? then None else Some(if a.value == [] then "" else Spaced(a.value))
  }

  /** What is printed for an entry between its header and the blank line, piece by piece. */
  function Pieces(e: Entry): (r: seq<string>)
    ensures |r| == 15
  {
    [OptLine("name", e.printableName),
     OptLine("osinfo", e.osinfo),
     Line("file", e.fileUri),
     Line("arch", e.arch.name),
     OptLine("sig", e.signatureUri),
     if e.checksums.None? then "" else ChecksumLines(e.checksums.value),
     Line("revision", StringOfRevision(e.revision)),
     OptLine("format", e.format),
     Line("size", IntText(e.size)),
     OptLine("compressed_size", IntOption(e.compressedSize)),
     OptLine("expand", e.expand),
     OptLine("lvexpand", e.lvexpand),
     NotesLines(e.notes),
     OptLine("aliases", AliasesText(e.aliases)),
     if e.hidden then "hidden=true\n" else ""]
  }

  function Concat(pieces: seq<string>): string {
    if pieces == [] then "" else pieces[0] + Concat(pieces[1..])
  }

  function EntryText(name: string, e: Entry): string {
    "[" + name + "]\n" + Concat(Pieces(e)) + "\n"
  }

  function IndexText(entries: seq<(string, Entry)>): string {
    if entries == [] then ""
    else EntryText(entries[0].0, entries[0].1) + IndexText(entries[1..])
  }

  // ---- Reading

  /** The value of the first field with this key and subkey. */
  function Lookup(fs: seq<Field>, key: string, subkey: Option<string>): Option<string> {
    if fs == [] then None
    else if fs[0].key == key && fs[0].subkey == subkey then Some(fs[0].value)
    else Lookup(fs[1..], key, subkey)
  }

  predicate RepeatedField(fs: seq<Field>) {
    fs != [] && (Lookup(fs[1..], fs[0].key, fs[0].subkey).Some? || RepeatedField(fs[1..]))
  }

  /** A section's architecture as far as the check for repeated sections goes. */
  function FindArch(fs: seq<Field>): string {
    var a := Lookup(fs, "arch", None);
    if a.None? then "" else a.value
  }

  predicate RepeatedSection(ss: seq<Section>) {
    ss != [] && ((exists k | 1 <= k < |ss| :: ss[k].name == ss[0].name
                                              && FindArch(ss[k].fields) == FindArch(ss[0].fields))
                 || RepeatedSection(ss[1..]))
  }

  predicate Contains(s: string, part: string) {
    part <= s || (s != [] && Contains(s[1..], part))
  }

  /** A path that is not empty, holds no "://" and does not start with a slash. */
  predicate RelativePath(path: string) {
    path != [] && !Contains(path, "://") && path[0] != '/'
  }

  /** The source's URI up to its last slash. */
  function Directory(uri: string): Option<string> {
    if uri == [] then None
    else if uri[|uri| - 1] == '/' then Some(uri)
    else Directory(uri[..|uri| - 1])
  }

  /** A directory and a name joined by a slash; no slash goes behind an empty directory. */
  function JoinPath(directory: string, name: string): string {
    if directory == [] || directory[|directory| - 1] == '/' then directory + name
    else directory + "/" + name
  }

  function MakeAbsoluteUri(uri: string, path: string): Option<string> {
    if !RelativePath(path) then None
    else if Directory(uri).Some? then Some(Directory(uri).value + path)
    else Some(JoinPath(uri, path))
  }

  /** r names the path beside the file that the URI names: with the same text up to the last
      slash. A URI without a slash counts as a directory. */
  ghost predicate Beside(uri: string, path: string, r: string) {
    && (forall d: string, f: string :: uri == d + "/" + f && '/' !in f ==> r == d + "/" + path)
    && ('/' !in uri ==> r == if uri == "" then path else uri + "/" + path)
  }

  /** A path is resolved beside the URI, or refused exactly when it is empty, has "://" anywhere
      in it, or starts with a slash. */
  lemma AbsoluteUri(uri: string, path: string)
    ensures MakeAbsoluteUri(uri, path) == None
            <==> path == "" || path[0] == '/' || exists a: string, b: string :: path == a + "://" + b
    ensures MakeAbsoluteUri(uri, path).Some? ==> Beside(uri, path, MakeAbsoluteUri(uri, path).value)
  {
    ContainsExact(path, "://");
    hide Contains, Directory;
    NoDirectory(uri);
    if MakeAbsoluteUri(uri, path).Some? {
      forall d: string, f: string | uri == d + "/" + f && '/' !in f
        ensures MakeAbsoluteUri(uri, path).value == d + "/" + path
      {
        DirectoryOf(d, f);
      }
    }
  }

  lemma {:induction false} DirectoryOf(d: string, f: string)
    requires '/' !in f
    ensures Directory(d + "/" + f) == Some(d + "/")
    decreases |f|
  {
    var uri := d + "/" + f;
    if f == [] {
      assert uri == d + "/";
    } else {
      assert uri[|uri| - 1] == f[|f| - 1] && uri[..|uri| - 1] == d + "/" + f[..|f| - 1];
      assert f[|f| - 1] in f;
      DirectoryOf(d, f[..|f| - 1]);
    }
  }

  lemma {:induction false} NoDirectory(uri: string)
    ensures Directory(uri) == None <==> '/' !in uri
    decreases |uri|
  {
    if uri != [] {
      NoDirectory(uri[..|uri| - 1]);
      assert uri == uri[..|uri| - 1] + [uri[|uri| - 1]];
    }
  }

  lemma {:induction false} ContainsExact(s: string, part: string)
    ensures Contains(s, part) <==> exists a: string, b: string :: s == a + part + b
  {
    forall a: string, b: string | s == a + part + b ensures Contains(s, part) {
      Contained(a, part, b);
    }
    if Contains(s, part) { var a, b := Around(s, part); }
  }

  lemma {:induction false} Contained(a: string, part: string, b: string)
    ensures Contains(a + part + b, part)
    decreases |a|
  {
    if a == [] {
      assert a + part + b == part + b;
    } else {
      Contained(a[1..], part, b);
      assert (a + part + b)[1..] == a[1..] + part + b;
    }
  }

  lemma {:induction false} Around(s: string, part: string) returns (a: string, b: string)
    requires Contains(s, part)
    ensures s == a + part + b
    decreases |s|
  {
    if part <= s {
      a, b := [], s[|part|..];
    } else {
      a, b := Around(s[1..], part);
      a := [s[0]] + a;
    }
  }

  function NotesOf(fs: seq<Field>): seq<(string, string)> {
    if fs == [] then []
    else if fs[0].key == "notes" then
      [(if fs[0].subkey.None? then "" else fs[0].subkey.value, fs[0].value)] + NotesOf(fs[1..])
    else NotesOf(fs[1..])
  }

  function Insert(note: (string, string), notes: seq<(string, string)>): seq<(string, string)> {
    if notes == [] || !Less(notes[0].0, note.0) then [note] + notes
    else [notes[0]] + Insert(note, notes[1..])
  }

  /** Sorted by language. */
  function Sort(notes: seq<(string, string)>): seq<(string, string)> {
    if notes == [] then [] else Insert(notes[0], Sort(notes[1..]))
  }

  /** Two attempts that must both succeed. */
  function Checksums(fs: seq<Field>): Option<seq<Checksum>> {
    var sha512 := Lookup(fs, "checksum", Some("sha512"));
    var plain := Lookup(fs, "checksum", None);
    if sha512.Some? then Some([SHA512(sha512.value)])
    else if plain.Some? then Some([SHA512(plain.value)]) else None
  }

  datatype Flag = Bad | Flag(value: bool)

  function Hidden(v: Option<string>): Flag {
    match v
    case None => Flag(false)
    case Some(s) => if s == "true" then Flag(true) else if s == "false" then Flag(false) else Bad
  }

  /** The entry a section describes, or None when the section is corrupt. */
  function EntryOf(fs: seq<Field>, uri: string): Option<Entry> {
    var file := Lookup(fs, "file", None);
    var arch := Lookup(fs, "arch", None);
    var sig := Lookup(fs, "sig", None);
    var revision := Lookup(fs, "revision", None);
    var size := Lookup(fs, "size", None);
    var compressed := Lookup(fs, "compressed_size", None);
    var hidden := Hidden(Lookup(fs, "hidden", None));
    var aliases := Lookup(fs, "aliases", None);
    if file.None? || arch.None? || size.None? || hidden.Bad? then None
    else
      var fileUri := MakeAbsoluteUri(uri, file.value);
      var sigUri := if sig.None? then None else MakeAbsoluteUri(uri, sig.value);
      var rev := if revision.None? then Some(1) else ParseInt(revision.value, MAX_INT);
      var sz := ParseInt(size.value, MAX_INT64);
      var csz := if compressed.None? then None else ParseInt(compressed.value, MAX_INT64);
      if fileUri.None? || (sig.Some? && sigUri.None?) || rev.None? || sz.None?
         || (compressed.Some? && csz.None?) then None
      else
        Some(Entry(
          Lookup(fs, "name", None), Lookup(fs, "osinfo", None), fileUri.value, Arch(arch.value),
          sigUri, Checksums(fs), RevInt(rev.value), Lookup(fs, "format", None), sz.value, csz,
          Lookup(fs, "expand", None), Lookup(fs, "lvexpand", None), Sort(NotesOf(fs)), hidden.value,
          if aliases.None? then None else Some(Words(aliases.value))))
  }

  function EntriesOf(ss: seq<Section>, uri: string): Option<seq<(string, Entry)>> {
    if ss == [] then Some([])
    else
      var e := EntryOf(ss[0].fields, uri);
      var more := EntriesOf(ss[1..], uri);
      if e.None? || more.None? then None else Some([(ss[0].name, e.value)] + more.value)
  }

  /** Reads an index fetched from a source: parse, refuse repetitions, build the entries. */
  function GetIndex(text: string, uri: string): Result {
    var sections := ReadSections(text);
    if sections.None? then SyntaxError
    else if RepeatedSection(sections.value) then Corrupt
    else if exists k | 0 <= k < |sections.value| :: RepeatedField(sections.value[k].fields) then Corrupt
    else
      var entries := EntriesOf(sections.value, uri);
      if entries.None? then Corrupt else Ok(entries.value)
  }
}
