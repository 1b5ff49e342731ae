/** The grammar of the index format, its inverse, and the round trip between sections and
    text. */
module IndexGrammar {
  import opened IndexScan
  import opened Wrappers

  datatype Section = Section(name: string, fields: seq<Field>)

  /** Two strings joined by a newline, or the first alone. */
  function ConcatNewline(str1: string, str2: Option<string>): string {
    if str2.None? then str1 else str1 + "\n" + str2.value
  }

  function ParseContinuations(t: seq<Token>): (r: (Option<string>, seq<Token>))
    ensures |r.1| <= |t|
  {
    if t != [] && t[0].ValueCont? then
      var (more, rest) := ParseContinuations(t[1..]);
      (Some(ConcatNewline(t[0].text, more)), rest)
    else (None, t)
  }

  function ParseFields(t: seq<Token>): (r: (seq<Field>, seq<Token>))
    ensures |r.1| <= |t|
    decreases |t|
  {
    if t != [] && t[0].FieldStart? then
      var (more, rest) := ParseContinuations(t[1..]);
      var f := t[0].field;
      var (fields, last) := ParseFields(rest);
      ([f.(value := ConcatNewline(f.value, more))] + fields, last)
    else ([], t)
  }

  function ParseSections(t: seq<Token>): (r: (seq<Section>, seq<Token>))
    decreases |t|
  {
    if t != [] && t[0].SectionHeader? then
      var (fields, rest) := ParseFields(t[1..]);
      var (sections, last) := ParseSections(rest);
      ([Section(t[0].name, fields)] + sections, last)
    else ([], t)
  }

  /** Nothing, or sections, or sections between the two signature markers. */
  function ParseIndex(t: seq<Token>): Option<seq<Section>> {
    if t == [] then Some([])
    else if t[0] == PgpPrologue then
      var (sections, rest) := ParseSections(t[1..]);
      if sections != [] && rest == [PgpEpilogue] then Some(sections) else None
    else
      var (sections, rest) := ParseSections(t);
      if sections != [] && rest == [] then Some(sections) else None
  }

  function ReadSections(text: string): Option<seq<Section>> {
    ParseIndex(Scan(text))
  }

  /** The lines of a string: at least one, however many newlines there are. */
  function Split(s: string): (r: seq<string>)
    ensures r != [] && forall k | 0 <= k < |r| :: OneLine(r[k])
    decreases |s|
  {
    var k := Find(s, '\n');
    if k == |s| then [s] else [s[..k]] + Split(s[k + 1..])
  }

  function Join(lines: seq<string>): string
    requires lines != []
  {
    if |lines| == 1 then lines[0] else lines[0] + "\n" + Join(lines[1..])
  }

  lemma {:induction false} JoinSplit(s: string)
    ensures Join(Split(s)) == s
    decreases |s|
  {
    var k := Find(s, '\n');
    if k != |s| {
      JoinSplit(s[k + 1..]);
      assert Split(s)[1..] == Split(s[k + 1..]);
      assert s == s[..k] + "\n" + s[k + 1..];
    }
  }

  lemma SplitOneLine(s: string)
    requires OneLine(s)
    ensures Split(s) == [s]
  {
  }

  function PrintContinuations(lines: seq<string>): string {
    if lines == [] then "" else " " + lines[0] + "\n" + PrintContinuations(lines[1..])
  }

  /** A field, each line of its value but the first behind a blank. */
  function PrintField(f: Field): string {
    var lines := Split(f.value);
    FieldHead(f.key, f.subkey) + lines[0] + "\n" + PrintContinuations(lines[1..])
  }

  function PrintFields(fs: seq<Field>): string {
    if fs == [] then "" else PrintField(fs[0]) + PrintFields(fs[1..])
  }

  function PrintSection(s: Section): string {
    "[" + s.name + "]\n" + PrintFields(s.fields) + "\n"
  }

  function PrintSections(ss: seq<Section>): string {
    if ss == [] then "" else PrintSection(ss[0]) + PrintSections(ss[1..])
  }

  predicate LegalFields(fs: seq<Field>) {
    forall k | 0 <= k < |fs| :: LegalKey(fs[k].key, fs[k].subkey)
  }

  predicate LegalSections(ss: seq<Section>) {
    forall k | 0 <= k < |ss| :: ss[k].name != [] && AllName(ss[k].name) && LegalFields(ss[k].fields)
  }

  function ContTokens(lines: seq<string>): seq<Token> {
    if lines == [] then [] else [ValueCont(lines[0])] + ContTokens(lines[1..])
  }

  function FieldTokens(f: Field): seq<Token> {
    var lines := Split(f.value);
    [FieldStart(f.(value := lines[0]))] + ContTokens(lines[1..])
  }

  function FieldsTokens(fs: seq<Field>): seq<Token> {
    if fs == [] then [] else FieldTokens(fs[0]) + FieldsTokens(fs[1..])
  }

  function SectionTokens(s: Section): seq<Token> {
    [SectionHeader(s.name)] + FieldsTokens(s.fields)
  }

  function SectionsTokens(ss: seq<Section>): seq<Token> {
    if ss == [] then [] else SectionTokens(ss[0]) + SectionsTokens(ss[1..])
  }

  lemma {:induction false} ScanContinuations(lines: seq<string>, rest: string)
    requires forall k | 0 <= k < |lines| :: OneLine(lines[k])
    ensures Scan(PrintContinuations(lines) + rest) == ContTokens(lines) + Scan(rest)
    decreases |lines|
  {
    hide Scan;
    if lines == [] {
      assert PrintContinuations(lines) + rest == rest;
    } else {
      var more := PrintContinuations(lines[1..]) + rest;
      assert PrintContinuations(lines) + rest == " " + lines[0] + "\n" + more;
      ScanCont(lines[0], more);
      ScanContinuations(lines[1..], rest);
    }
  }

  lemma ScanOneField(f: Field, rest: string)
    requires LegalKey(f.key, f.subkey)
    ensures Scan(PrintField(f) + rest) == FieldTokens(f) + Scan(rest)
  {
    hide Scan, FieldHead, Split;
    var lines := Split(f.value);
    var more := PrintContinuations(lines[1..]) + rest;
    assert PrintField(f) + rest == FieldHead(f.key, f.subkey) + lines[0] + "\n" + more;
    ScanField(f.(value := lines[0]), more);
    ScanContinuations(lines[1..], rest);
  }

  lemma {:induction false} ScanFields(fs: seq<Field>, rest: string)
    requires LegalFields(fs)
    ensures Scan(PrintFields(fs) + rest) == FieldsTokens(fs) + Scan(rest)
    decreases |fs|
  {
    hide Scan, PrintField, FieldTokens;
    if fs == [] {
      assert PrintFields(fs) + rest == rest;
    } else {
      assert PrintFields(fs) + rest == PrintField(fs[0]) + (PrintFields(fs[1..]) + rest);
      ScanOneField(fs[0], PrintFields(fs[1..]) + rest);
      ScanFields(fs[1..], rest);
    }
  }

  lemma ScanOneSection(s: Section, more: string)
    requires s.name != [] && AllName(s.name) && LegalFields(s.fields)
    ensures Scan(PrintSection(s) + more) == SectionTokens(s) + Scan(more)
  {
    hide Scan, PrintFields, FieldsTokens;
    var head, fields := "[" + s.name + "]\n", PrintFields(s.fields);
    assert PrintSection(s) + more == head + (fields + ("\n" + more));
    ScanSection(s.name, fields + ("\n" + more));
    ScanFields(s.fields, "\n" + more);
    ScanBlank(more);
  }

  lemma {:induction false} ScanSections(ss: seq<Section>)
    requires LegalSections(ss)
    ensures Scan(PrintSections(ss)) == SectionsTokens(ss)
    decreases |ss|
  {
    hide Scan, PrintSection, SectionTokens;
    if ss == [] {
      ScanEmpty();
    } else {
      ScanOneSection(ss[0], PrintSections(ss[1..]));
      ScanSections(ss[1..]);
    }
  }

  lemma ScanEmpty()
    ensures Scan("") == []
  {
  }

  lemma {:induction false} ParseConts(lines: seq<string>, rest: seq<Token>)
    requires rest == [] || !rest[0].ValueCont?
    ensures ParseContinuations(ContTokens(lines) + rest)
            == (if lines == [] then None else Some(Join(lines)), rest)
    decreases |lines|
  {
    if lines == [] {
      assert ContTokens(lines) + rest == rest;
    } else {
      assert (ContTokens(lines) + rest)[1..] == ContTokens(lines[1..]) + rest;
      ParseConts(lines[1..], rest);
    }
  }

  lemma FieldStep(t: seq<Token>, f: Field, conts: seq<Token>, more: seq<Token>, value: Option<string>)
    requires t == [FieldStart(f)] + conts && ParseContinuations(conts) == (value, more)
    ensures var (fields, last) := ParseFields(more);
            ParseFields(t) == ([f.(value := ConcatNewline(f.value, value))] + fields, last)
  {
    assert t[1..] == conts;
  }

  lemma ParseOneField(f: Field, more: seq<Token>)
    requires more == [] || !more[0].ValueCont?
    ensures var (fields, last) := ParseFields(more);
            ParseFields(FieldTokens(f) + more) == ([f] + fields, last)
  {
    hide ContTokens, ParseContinuations, Join, Split, ParseFields;
    var lines := Split(f.value);
    var conts := ContTokens(lines[1..]) + more;
    assert FieldTokens(f) + more == [FieldStart(f.(value := lines[0]))] + conts;
    ParseConts(lines[1..], more);
    var value := if lines[1..] == [] then None else Some(Join(lines[1..]));
    FieldStep(FieldTokens(f) + more, f.(value := lines[0]), conts, more, value);
    JoinSplit(f.value);
    JoinHead(lines);
  }

  lemma JoinHead(lines: seq<string>)
    requires lines != []
    ensures Join(lines) == ConcatNewline(lines[0], if lines[1..] == [] then None else Some(Join(lines[1..])))
  {
  }

  lemma FieldsFirst(fs: seq<Field>, rest: seq<Token>)
    ensures fs != [] ==> FieldsTokens(fs) != [] && (FieldsTokens(fs) + rest)[0].FieldStart?
    ensures fs == [] ==> FieldsTokens(fs) + rest == rest
  {
  }

  lemma {:induction false} ParseManyFields(fs: seq<Field>, rest: seq<Token>)
    requires rest == [] || (!rest[0].ValueCont? && !rest[0].FieldStart?)
    ensures ParseFields(FieldsTokens(fs) + rest) == (fs, rest)
    decreases |fs|
  {
    hide FieldTokens;
    if fs == [] {
      assert FieldsTokens(fs) + rest == rest;
    } else {
      hide ParseFields;
      var more := FieldsTokens(fs[1..]) + rest;
      FieldsFirst(fs[1..], rest);
      assert FieldsTokens(fs) + rest == FieldTokens(fs[0]) + more;
      ParseOneField(fs[0], more);
      ParseManyFields(fs[1..], rest);
      assert [fs[0]] + fs[1..] == fs;
    }
  }

  lemma SectionStep(t: seq<Token>, name: string, body: seq<Token>, fields: seq<Field>, more: seq<Token>)
    requires t == [SectionHeader(name)] + body && ParseFields(body) == (fields, more)
    ensures var (sections, last) := ParseSections(more);
            ParseSections(t) == ([Section(name, fields)] + sections, last)
  {
    assert t[1..] == body;
  }

  lemma {:induction false} ParseOneSection(s: Section, more: seq<Token>)
    requires more == [] || more[0].SectionHeader? || more[0].PgpEpilogue?
    ensures var (sections, last) := ParseSections(more);
            ParseSections(SectionTokens(s) + more) == ([s] + sections, last)
  {
    hide FieldsTokens, ParseFields, ParseSections;
    var body := FieldsTokens(s.fields) + more;
    assert SectionTokens(s) + more == [SectionHeader(s.name)] + body;
    ParseManyFields(s.fields, more);
    SectionStep(SectionTokens(s) + more, s.name, body, s.fields, more);
  }

  lemma SectionsFirst(ss: seq<Section>, rest: seq<Token>)
    requires rest == [] || rest == [PgpEpilogue]
    ensures var t := SectionsTokens(ss) + rest;
            t == [] || t[0].SectionHeader? || t[0].PgpEpilogue?
    ensures ss == [] ==> SectionsTokens(ss) + rest == rest
    ensures ss != [] ==>
              SectionsTokens(ss) + rest == SectionTokens(ss[0]) + (SectionsTokens(ss[1..]) + rest)
  {
    hide FieldsTokens;
  }

  lemma {:induction false} ParseManySections(ss: seq<Section>, rest: seq<Token>)
    requires rest == [] || rest == [PgpEpilogue]
    ensures ParseSections(SectionsTokens(ss) + rest) == (ss, rest)
    decreases |ss|
  {
    hide SectionTokens, SectionsTokens;
    SectionsFirst(ss, rest);
    if ss != [] {
      hide ParseSections;
      var more := SectionsTokens(ss[1..]) + rest;
      SectionsFirst(ss[1..], rest);
      ParseOneSection(ss[0], more);
      ParseManySections(ss[1..], rest);
      assert [ss[0]] + ss[1..] == ss;
    }
  }

  /** Printing any legal sections and reading them back gives the same sections, whatever lines
      their values hold. */
  lemma SectionsRoundTrip(ss: seq<Section>)
    requires LegalSections(ss)
    ensures ReadSections(PrintSections(ss)) == Some(ss)
  {
    hide Scan;
    ScanSections(ss);
    ParseManySections(ss, []);
    assert SectionsTokens(ss) + [] == SectionsTokens(ss);
  }
}
