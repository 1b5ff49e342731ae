/** What reading an index accepts and refuses, whatever the text: the patterns of its lines, the
    checks of an index, and the fields of an entry. */
module IndexReading {
  import opened Decimal
  import opened IndexScan
  import opened IndexGrammar
  import opened IndexEntry
  import opened IndexChannel
  import opened StringOrder
  import opened Wrappers

  // ---- The patterns of the scanner

  /** ASCII letters and digits, by their codes. */
  ghost predicate LetterOrDigit(c: char) {
    var n := c as int;
    65 <= n <= 90 || 97 <= n <= 122 || 48 <= n <= 57
  }

  ghost predicate AllAre(s: string, more: string) {
    s != [] && forall k | 0 <= k < |s| :: LetterOrDigit(s[k]) || s[k] in more
  }

  /** A name in brackets, with blanks after it. */
  ghost predicate HeaderPattern(line: string, name: string, blanks: string) {
    && line == "[" + name + "]" + blanks
    && AllAre(name, "-._") && forall k | 0 <= k < |blanks| :: blanks[k] == ' ' || blanks[k] == '\t'
  }

  /** A key, maybe a subkey in brackets, an equals sign, and any value. */
  ghost predicate FieldPattern(line: string, f: Field) {
    && AllAre(f.key, "_.")
    && if f.subkey.None? then line == f.key + "=" + f.value
       else AllAre(f.subkey.value, "_,.") && line == f.key + "[" + f.subkey.value + "]=" + f.value
  }

  /** Every line but the two markers has the token that its pattern calls for: nothing for blank lines
      and comments, a continuation for a line behind a blank, a header or a field for one of that
      form, and else the token that no place in the grammar is for. */
  lemma LineExact(line: string)
    ensures LineTokens(line) == [] <==> line == "" || line[0] == '#'
    ensures forall text :: LineTokens(line) == [ValueCont(text)] <==> line == " " + text || line == "\t" + text
    ensures forall name :: LineTokens(line) == [SectionHeader(name)]
                           <==> exists blanks :: HeaderPattern(line, name, blanks)
    ensures forall f :: LineTokens(line) == [FieldStart(f)] <==> FieldPattern(line, f)
    ensures |LineTokens(line)| <= 1
    ensures LineTokens(line) != [] ==> match LineTokens(line)[0]
                                       case PgpPrologue => false
                                       case PgpEpilogue => false
                                       case _ => true
  {
    hide SectionName, FieldOf, AllAre;
    forall text ensures LineTokens(line) == [ValueCont(text)] <==> line == " " + text || line == "\t" + text {
      Continuation(line, text);
    }
    forall name
      ensures LineTokens(line) == [SectionHeader(name)] <==> exists blanks :: HeaderPattern(line, name, blanks)
    {
      HeaderExact(line, name);
      HeaderStart(line, name);
    }
    forall f ensures LineTokens(line) == [FieldStart(f)] <==> FieldPattern(line, f) {
      FieldExact(line, f);
      FieldBegins(line, f);
    }
  }

  lemma Continuation(line: string, text: string)
    ensures line != [] && (line[0] == ' ' || line[0] == '\t') && line[1..] == text
            <==> line == " " + text || line == "\t" + text
  {
    if line != [] { assert line == [line[0]] + line[1..]; }
    assert (" " + text)[1..] == text && ("\t" + text)[1..] == text;
  }

  lemma Classes(s: string)
    ensures s != [] && AllName(s) <==> AllAre(s, "-._")
    ensures s != [] && AllKey(s) <==> AllAre(s, "_.")
    ensures s != [] && AllSubkey(s) <==> AllAre(s, "_,.")
  {
    forall c: char
      ensures NameChar(c) <==> LetterOrDigit(c) || c in "-._"
      ensures KeyChar(c) <==> LetterOrDigit(c) || c in "_."
      ensures SubkeyChar(c) <==> LetterOrDigit(c) || c in "_,."
    {
      ClassesOf(c);
    }
  }

  lemma ClassesOf(c: char)
    ensures NameChar(c) <==> LetterOrDigit(c) || c in "-._"
    ensures KeyChar(c) <==> LetterOrDigit(c) || c in "_."
    ensures SubkeyChar(c) <==> LetterOrDigit(c) || c in "_,."
  {
  }

  lemma HeaderExact(line: string, name: string)
    ensures SectionName(line) == Some(name) <==> exists blanks :: HeaderPattern(line, name, blanks)
  {
    Classes(name);
    hide AllAre;
    if SectionName(line) == Some(name) {
      var k := Find(line, ']');
      assert line == "[" + name + "]" + line[k + 1..];
      assert HeaderPattern(line, name, line[k + 1..]);
    }
    forall blanks | HeaderPattern(line, name, blanks) ensures SectionName(line) == Some(name) {
      HeaderReads(line, name, blanks);
    }
  }

  lemma HeaderReads(line: string, name: string, blanks: string)
    requires HeaderPattern(line, name, blanks)
    ensures SectionName(line) == Some(name)
  {
    Classes(name);
    forall j | 0 <= j < |name| + 1 ensures line[j] != ']' {
      if 1 <= j { assert line[j] == name[j - 1] && NameChar(name[j - 1]); }
    }
    FindIs(line, ']', |name| + 1);
    assert line[1..|name| + 1] == name && line[|name| + 2..] == blanks;
  }

  lemma HeaderStart(line: string, name: string)
    ensures SectionName(line).Some? ==> line != [] && line[0] == '['
  {
  }

  lemma FieldExact(line: string, f: Field)
    ensures FieldOf(line) == Some(f) <==> FieldPattern(line, f)
  {
    hide FieldOf, FieldPattern;
    if FieldOf(line) == Some(f) {
      FieldMatches(line);
    } else if FieldPattern(line, f) {
      FieldReads(line, f);
    }
  }

  lemma FieldReads(line: string, f: Field)
    requires FieldPattern(line, f)
    ensures FieldOf(line) == Some(f)
  {
    hide FieldOf, AllKey, AllSubkey, AllAre;
    Classes(f.key);
    if f.subkey.Some? {
      Classes(f.subkey.value);
      assert f.key + ("[" + f.subkey.value + "]") + "=" + f.value == f.key + "[" + f.subkey.value + "]=" + f.value;
    } else {
      assert f.key + "" + "=" + f.value == f.key + "=" + f.value;
    }
    FieldOfLine(f);
  }

  lemma FieldMatches(line: string)
    requires FieldOf(line).Some?
    ensures FieldPattern(line, FieldOf(line).value)
  {
    hide KeyEnd, AllKey, AllSubkey, AllAre;
    var f, i := FieldOf(line).value, KeyEnd(line);
    KeyStops(line);
    Classes(f.key);
    if line[i] == '=' {
      assert line == line[..i] + "=" + line[i + 1..];
    } else {
      Classes(f.subkey.value);
      var rest := line[i + 1..];
      var j := Find(rest, ']');
      AtClose(rest, j);
      Bracketed(line, i, rest, j);
    }
  }

  lemma AtClose(rest: string, j: nat)
    requires j + 1 < |rest| && rest[j] == ']' && rest[j + 1] == '='
    ensures rest == rest[..j] + "]=" + rest[j + 2..]
  {
    var a, more := rest[..j], rest[j + 2..];
    TwoThenMore(rest[j..]);
    assert rest[j..][2..] == more && rest == a + rest[j..];
    assert a + "]=" + more == a + ("]=" + more);
  }

  lemma TwoThenMore(s: string)
    requires 2 <= |s| && s[0] == ']' && s[1] == '='
    ensures s == "]=" + s[2..]
  {
    assert s == [s[0], s[1]] + s[2..];
  }

  lemma Bracketed(line: string, i: nat, rest: string, j: nat)
    requires i < |line| && line[i] == '[' && rest == line[i + 1..]
    requires j + 1 < |rest| && rest == rest[..j] + "]=" + rest[j + 2..]
    ensures line == line[..i] + "[" + rest[..j] + "]=" + rest[j + 2..]
  {
    assert line == line[..i] + "[" + rest;
  }

  lemma KeyStops(line: string)
    ensures var i := KeyEnd(line); i < |line| ==> line[i] == '=' || line[i] == '['
  {
  }

  lemma FieldBegins(line: string, f: Field)
    ensures FieldOf(line).Some? ==> line != [] && (LetterOrDigit(line[0]) || line[0] == '_' || line[0] == '.')
  {
    hide KeyEnd, Find;
    if FieldOf(line).Some? {
      assert line[0] == line[..KeyEnd(line)][0] && KeyChar(line[0]);
    }
  }

  // ---- What is refused

  /** Two of the sections have one name and one architecture, which is empty when there is none. */
  ghost predicate TwoAlike(ss: seq<Section>) {
    exists j, k | 0 <= j < k < |ss| :: ss[j].name == ss[k].name && FindArch(ss[j].fields) == FindArch(ss[k].fields)
  }

  /** Two of the fields have one key and one subkey. */
  ghost predicate TwoKeys(fs: seq<Field>) {
    exists j, k | 0 <= j < k < |fs| :: fs[j].key == fs[k].key && fs[j].subkey == fs[k].subkey
  }

  lemma RepeatedExact(ss: seq<Section>, fs: seq<Field>)
    ensures RepeatedSection(ss) <==> TwoAlike(ss)
    ensures RepeatedField(fs) <==> TwoKeys(fs)
  {
    hide RepeatedSection, RepeatedField, FindArch;
    if TwoAlike(ss) {
      var j, k :| 0 <= j < k < |ss| && ss[j].name == ss[k].name && FindArch(ss[j].fields) == FindArch(ss[k].fields);
      RepeatedPair(ss, j, k);
    } else {
      NoRepeatedPair(ss);
    }
    if TwoKeys(fs) {
      var j, k :| 0 <= j < k < |fs| && fs[j].key == fs[k].key && fs[j].subkey == fs[k].subkey;
      RepeatedKey(fs, j, k);
    } else {
      NoRepeatedKey(fs);
    }
  }

  lemma {:induction false} EntriesExact(ss: seq<Section>, uri: string)
    ensures EntriesOf(ss, uri) == None <==> exists k | 0 <= k < |ss| :: EntryOf(ss[k].fields, uri) == None
    ensures var es := EntriesOf(ss, uri);
            es.Some? ==> && |es.value| == |ss|
                         && forall k | 0 <= k < |ss| ::
                              es.value[k].0 == ss[k].name && Some(es.value[k].1) == EntryOf(ss[k].fields, uri)
    decreases |ss|
  {
    if ss != [] {
      hide EntryOf;
      EntriesExact(ss[1..], uri);
      assert forall k | 0 < k < |ss| :: ss[k] == ss[1..][k - 1];
    }
  }

  /** An index is a syntax error exactly when its sections cannot be read, and corrupt exactly when
      two sections or two fields of a section are alike, or a section makes no entry. Otherwise
      every section makes its entry, in order. */
  lemma GetIndexExact(text: string, uri: string)
    ensures var r, sections := GetIndex(text, uri), ReadSections(text);
            && (r == SyntaxError <==> sections == None)
            && (sections.Some? ==>
                  var ss := sections.value;
                  && (r == Corrupt
                      <==> || TwoAlike(ss)
                           || exists k | 0 <= k < |ss| :: TwoKeys(ss[k].fields) || EntryOf(ss[k].fields, uri) == None)
                  && (r.Ok? ==>
                        && |r.entries| == |ss|
                        && forall k | 0 <= k < |ss| ::
                             r.entries[k].0 == ss[k].name && Some(r.entries[k].1) == EntryOf(ss[k].fields, uri)))
  {
    hide ReadSections, RepeatedSection, RepeatedField, EntryOf, EntriesOf, TwoAlike, TwoKeys;
    var sections := ReadSections(text);
    if sections.Some? {
      var ss := sections.value;
      EntriesExact(ss, uri);
      RepeatedExact(ss, []);
      forall k | 0 <= k < |ss| ensures RepeatedField(ss[k].fields) <==> TwoKeys(ss[k].fields) {
        RepeatedExact([], ss[k].fields);
      }
    }
  }

  /** A path that is not resolved. */
  ghost predicate Refused(path: string) {
    path == "" || path[0] == '/' || exists a: string, b: string :: path == a + "://" + b
  }

  /** s is n in decimal, within the given bounds; leading zeros do no harm. */
  ghost predicate InDecimal(s: string, n: int, max: int) {
    && -max - 1 <= n <= max
    && exists digits: string ::
         && digits != [] && AllDigits(digits)
         && ((s == digits && n == Value(digits)) || (s == "-" + digits && n == 0 - Value(digits)))
  }

  lemma ParseIntExact(s: string, n: int, max: int)
    ensures ParseInt(s, max) == Some(n) <==> InDecimal(s, n, max)
  {
    hide Value;
    var negative := s != [] && s[0] == '-';
    var digits := if negative then s[1..] else s;
    assert s == if negative then "-" + digits else digits;
    forall d: string | d != [] && AllDigits(d) && (s == d || s == "-" + d) ensures d == digits {
      assert IsDigit(d[0]);
      assert ("-" + d)[1..] == d;
    }
  }

  /** A field that is not a number in those bounds. */
  ghost predicate NotDecimal(v: Option<string>, max: int) {
    v.Some? && forall n: int :: !InDecimal(v.value, n, max)
  }

  /** A section makes no entry exactly when it has no file, architecture or size, a file or a
      signature that is not a relative path, a number that is none or does not fit, or something
      other than true and false for hidden. */
  lemma EntryRefused(fs: seq<Field>, uri: string)
    ensures var file, sig, size := Lookup(fs, "file", None), Lookup(fs, "sig", None), Lookup(fs, "size", None);
            var hidden := Lookup(fs, "hidden", None);
            EntryOf(fs, uri) == None
            <==> || file == None || Lookup(fs, "arch", None) == None || size == None
                 || Refused(file.value) || (sig.Some? && Refused(sig.value))
                 || NotDecimal(size, 0x7FFF_FFFF_FFFF_FFFF)
                 || NotDecimal(Lookup(fs, "compressed_size", None), 0x7FFF_FFFF_FFFF_FFFF)
                 || NotDecimal(Lookup(fs, "revision", None), 0x3FFF_FFFF_FFFF_FFFF)
                 || (hidden.Some? && hidden.value != "true" && hidden.value != "false")
  {
    hide Lookup, ParseInt, MakeAbsoluteUri, InDecimal;
    var file, sig := Lookup(fs, "file", None), Lookup(fs, "sig", None);
    if file.Some? { AbsoluteUri(uri, file.value); }
    if sig.Some? { AbsoluteUri(uri, sig.value); }
    NotParsed(Lookup(fs, "size", None), MAX_INT64);
    NotParsed(Lookup(fs, "compressed_size", None), MAX_INT64);
    NotParsed(Lookup(fs, "revision", None), MAX_INT);
  }

  lemma NotParsed(v: Option<string>, max: int)
    ensures v.Some? && ParseInt(v.value, max) == None <==> NotDecimal(v, max)
  {
    hide ParseInt, InDecimal;
    if v.Some? {
      forall n: int ensures ParseInt(v.value, max) == Some(n) <==> InDecimal(v.value, n, max) {
        ParseIntExact(v.value, n, max);
      }
      if ParseInt(v.value, max).Some? { assert InDecimal(v.value, ParseInt(v.value, max).value, max); }
    }
  }

  /** The number a field holds, or what it is taken to be when there is none. */
  ghost predicate Number(v: Option<string>, n: int, max: int, otherwise: int) {
    if v.Some? then InDecimal(v.value, n, max) else n == otherwise
  }

  /** How the checksums of an entry are printed. */
  lemma ChecksumsPrinted(digest: string)
    ensures ChecksumLines([SHA1(digest)]) == "checksum[sha1]=" + digest + "\n"
    ensures ChecksumLines([SHA256(digest)]) == "checksum[sha256]=" + digest + "\n"
    ensures ChecksumLines([SHA512(digest)]) == "checksum[sha512]=" + digest + "\n"
  {
    forall c: Checksum ensures ChecksumLines([c]) == "checksum[" + ChecksumKind(c) + "]=" + c.digest + "\n" {
      assert [c][1..] == [] && ChecksumLines([]) == "";
    }
    assert "checksum[" + "sha1" + "]=" == "checksum[sha1]=";
    assert "checksum[" + "sha256" + "]=" == "checksum[sha256]=";
    assert "checksum[" + "sha512" + "]=" == "checksum[sha512]=";
  }

  /** Notes in the order of their languages. */
  ghost predicate InOrder(notes: seq<(string, string)>) {
    forall j, k | 0 <= j < k < |notes| :: !Less(notes[k].0, notes[j].0)
  }

  /** What an entry has from its section. Without a revision it is the first, without a word about
      hiding it is not hidden; of the checksums only a SHA-512 one is taken, under either name; and
      the notes are put in order. */
  lemma EntryFields(fs: seq<Field>, uri: string)
    requires EntryOf(fs, uri).Some?
    ensures var e, sig := EntryOf(fs, uri).value, Lookup(fs, "sig", None);
            && Beside(uri, Lookup(fs, "file", None).value, e.fileUri)
            && Some(e.arch) == Some(Arch(Lookup(fs, "arch", None).value))
            && (sig.Some? <==> e.signatureUri.Some?) && (sig.Some? ==> Beside(uri, sig.value, e.signatureUri.value))
            && e.printableName == Lookup(fs, "name", None) && e.osinfo == Lookup(fs, "osinfo", None)
            && e.format == Lookup(fs, "format", None)
            && e.expand == Lookup(fs, "expand", None) && e.lvexpand == Lookup(fs, "lvexpand", None)
            && (e.hidden <==> Lookup(fs, "hidden", None) == Some("true"))
    ensures var e, compressed := EntryOf(fs, uri).value, Lookup(fs, "compressed_size", None);
            && e.revision.RevInt? && Number(Lookup(fs, "revision", None), e.revision.n, MAX_INT, 1)
            && Number(Lookup(fs, "size", None), e.size, MAX_INT64, 0)
            && (compressed.Some? <==> e.compressedSize.Some?)
            && (compressed.Some? ==> Number(compressed, e.compressedSize.value, MAX_INT64, 0))
    ensures var e, aliases := EntryOf(fs, uri).value, Lookup(fs, "aliases", None);
            var sha512, plain := Lookup(fs, "checksum", Some("sha512")), Lookup(fs, "checksum", None);
            && multiset(e.notes) == multiset(NotesOf(fs)) && InOrder(e.notes)
            && (aliases.Some? <==> e.aliases.Some?)
            && (aliases.Some? ==> aliases.value == Spaced(e.aliases.value)
                                  && forall w | w in e.aliases.value :: ' ' !in w)
            && e.checksums == if sha512.Some? then Some([SHA512(sha512.value)])
                              else if plain.Some? then Some([SHA512(plain.value)]) else None
  {
    hide Lookup, ParseInt, MakeAbsoluteUri, InDecimal, Beside, NotesOf, Sort, InOrder, Words, Spaced;
    SortOrders(NotesOf(fs));
    var file, sig, aliases := Lookup(fs, "file", None), Lookup(fs, "sig", None), Lookup(fs, "aliases", None);
    AbsoluteUri(uri, file.value);
    if sig.Some? { AbsoluteUri(uri, sig.value); }
    if aliases.Some? { WordsAre(aliases.value); }
    Parsed(Lookup(fs, "size", None), MAX_INT64);
    Parsed(Lookup(fs, "compressed_size", None), MAX_INT64);
    Parsed(Lookup(fs, "revision", None), MAX_INT);
  }

  lemma Parsed(v: Option<string>, max: int)
    ensures v.Some? && ParseInt(v.value, max).Some? ==> InDecimal(v.value, ParseInt(v.value, max).value, max)
  {
    hide ParseInt, InDecimal;
    if v.Some? && ParseInt(v.value, max).Some? { ParseIntExact(v.value, ParseInt(v.value, max).value, max); }
  }

  lemma {:induction false} WordsAre(s: string)
    ensures Spaced(Words(s)) == s && forall w | w in Words(s) :: ' ' !in w
    decreases |s|
  {
    var k := Find(s, ' ');
    FindFirst(s, ' ');
    if k < |s| {
      WordsAre(s[k + 1..]);
      assert ([s[..k]] + Words(s[k + 1..]))[1..] == Words(s[k + 1..]);
      assert s == s[..k] + " " + s[k + 1..];
    } else {
      assert s[..k] == s;
    }
  }

  lemma {:induction false} FindFirst(s: string, c: char)
    ensures var k := Find(s, c); k <= |s| && c !in s[..k] && (k < |s| ==> s[k] == c)
    decreases |s|
  {
    if s != [] && s[0] != c {
      FindFirst(s[1..], c);
      var k := Find(s[1..], c);
      assert s[..k + 1] == [s[0]] + s[1..][..k];
    }
  }

  lemma {:induction false} SortOrders(notes: seq<(string, string)>)
    ensures multiset(Sort(notes)) == multiset(notes) && InOrder(Sort(notes))
    decreases |notes|
  {
    if notes != [] {
      SortOrders(notes[1..]);
      InsertOrders(notes[0], Sort(notes[1..]));
      assert notes == [notes[0]] + notes[1..];
    }
  }

  lemma {:induction false} InsertOrders(note: (string, string), notes: seq<(string, string)>)
    requires InOrder(notes)
    ensures multiset(Insert(note, notes)) == multiset([note] + notes) && InOrder(Insert(note, notes))
    decreases |notes|
  {
    hide Less;
    if notes == [] {
    } else if !Less(notes[0].0, note.0) {
      forall k | 0 <= k < |notes| ensures !Less(notes[k].0, note.0) {
        if Less(notes[k].0, note.0) { NotBetween(notes[k].0, note.0, notes[0].0); }
      }
    } else {
      var more := Insert(note, notes[1..]);
      InsertOrders(note, notes[1..]);
      assert notes == [notes[0]] + notes[1..];
      LessAsymmetric(notes[0].0, note.0);
      forall k | 0 <= k < |more| ensures !Less(more[k].0, notes[0].0) {
        assert more[k] in multiset(more);
        assert more[k] == note || more[k] in notes[1..];
      }
    }
  }

  /** When a is before b, and c not before b, then a is before c. */
  lemma NotBetween(a: string, b: string, c: string)
    requires Less(a, b) && !Less(c, b)
    ensures Less(a, c)
  {
    if b != c {
      LessTotal(b, c);
      LessTransitive(a, b, c);
    }
  }
}
