/** An index wrapped in a cleartext signature (section 7 of RFC 4880) reads like the bare one. */
module IndexSigned {
  import opened IndexScan
  import opened IndexGrammar
  import opened Wrappers

  function PrintLines(lines: seq<string>): string {
    if lines == [] then "" else lines[0] + "\n" + PrintLines(lines[1..])
  }

  /** The signed form: armor headers, a blank line, the text, and the signature. */
  function Signed(headers: seq<string>, text: string, trailer: string): string {
    "-----BEGIN PGP SIGNED MESSAGE-----\n" + (PrintLines(headers) + "\n" + (text + Signature(trailer)))
  }

  /** The second marker, and whatever follows it. */
  function Signature(trailer: string): string {
    "-----BEGIN PGP SIGNATURE-----\n" + trailer
  }

  /** Armor header lines, which are not empty. */
  predicate Headers(headers: seq<string>) {
    forall k | 0 <= k < |headers| :: OneLine(headers[k]) && headers[k] != []
  }

  /** Lines that need no dash escaping. */
  predicate Plain(lines: seq<string>) {
    forall k | 0 <= k < |lines| :: OneLine(lines[k]) && (lines[k] == [] || lines[k][0] != '-')
  }

  /** Lines among which neither marker is. */
  predicate NoMarkers(lines: seq<string>) {
    forall k | 0 <= k < |lines| :: OneLine(lines[k]) && lines[k] != SIGNED_MESSAGE && lines[k] != SIGNATURE
  }

  lemma PlainNoMarkers(lines: seq<string>)
    requires Plain(lines)
    ensures NoMarkers(lines)
  {
    forall k | 0 <= k < |lines| ensures lines[k] != SIGNED_MESSAGE && lines[k] != SIGNATURE { NoDash(lines[k]); }
  }

  function LinesTokens(lines: seq<string>): seq<Token> {
    if lines == [] then [] else LineTokens(lines[0]) + LinesTokens(lines[1..])
  }

  lemma {:induction false} LinesTokensConcat(a: seq<string>, b: seq<string>)
    ensures LinesTokens(a + b) == LinesTokens(a) + LinesTokens(b)
    decreases |a|
  {
    hide LineTokens;
    if a == [] {
      assert a + b == b;
    } else {
      assert (a + b)[1..] == a[1..] + b;
      LinesTokensConcat(a[1..], b);
    }
  }

  lemma {:induction false} ScanLines(lines: seq<string>, rest: string)
    requires NoMarkers(lines)
    ensures Scan(PrintLines(lines) + rest) == LinesTokens(lines) + Scan(rest)
    decreases |lines|
  {
    hide Scan, LineTokens;
    if lines == [] {
      assert PrintLines(lines) + rest == rest;
    } else {
      var more := PrintLines(lines[1..]) + rest;
      assert PrintLines(lines) + rest == lines[0] + "\n" + more;
      ScanLine(lines[0], more);
      ScanLines(lines[1..], rest);
    }
  }

  lemma ScanText(lines: seq<string>)
    requires NoMarkers(lines)
    ensures Scan(PrintLines(lines)) == LinesTokens(lines)
  {
    hide Scan, LinesTokens;
    ScanLines(lines, "");
    ScanEmpty();
    assert PrintLines(lines) + "" == PrintLines(lines) && LinesTokens(lines) + [] == LinesTokens(lines);
  }

  lemma {:induction false} EatWithinLine(line: string, rest: string, prevnl: bool)
    requires OneLine(line) && line != []
    ensures EatPrologue(line + "\n" + rest, prevnl) == EatPrologue(rest, true)
    decreases |line|
  {
    var s := line + "\n" + rest;
    assert line[0] in line;
    if |line| == 1 {
      assert s[1..] == "\n" + rest && (s[1..])[1..] == rest;
    } else {
      assert s[1..] == line[1..] + "\n" + rest;
      EatWithinLine(line[1..], rest, false);
    }
  }

  /** With at least one armor header the prologue ends at the first blank line. */
  lemma {:induction false} EatHeaders(headers: seq<string>, rest: string, prevnl: bool)
    requires Headers(headers) && (prevnl || headers != [])
    ensures EatPrologue(PrintLines(headers) + "\n" + rest, prevnl) == rest
    decreases |headers|
  {
    if headers == [] {
      assert PrintLines(headers) + "\n" + rest == "\n" + rest && ("\n" + rest)[1..] == rest;
    } else {
      hide EatPrologue;
      var more := PrintLines(headers[1..]) + "\n" + rest;
      assert PrintLines(headers) + "\n" + rest == headers[0] + "\n" + more;
      EatWithinLine(headers[0], more, prevnl);
      EatHeaders(headers[1..], rest, true);
    }
  }

  lemma ScanMarkers(rest: string)
    ensures Scan("-----BEGIN PGP SIGNED MESSAGE-----\n" + rest) == [PgpPrologue] + Scan(EatPrologue(rest, false))
    ensures Scan(Signature(rest)) == [PgpEpilogue]
    ensures Signature(rest) == SIGNATURE + "\n" + rest
  {
    assert SIGNED_MESSAGE + "\n" + rest == "-----BEGIN PGP SIGNED MESSAGE-----\n" + rest;
    assert SIGNATURE + "\n" + rest == "-----BEGIN PGP SIGNATURE-----\n" + rest;
    hide LineTokens, EatPrologue;
    FirstLine(SIGNED_MESSAGE, rest);
    FirstLine(SIGNATURE, rest);
    assert |SIGNED_MESSAGE| != |SIGNATURE|;
  }

  predicate Unmarked(t: seq<Token>) {
    forall k | 0 <= k < |t| :: t[k] != PgpPrologue && t[k] != PgpEpilogue
  }

  lemma {:induction false} LinesUnmarked(lines: seq<string>)
    ensures Unmarked(LinesTokens(lines))
    decreases |lines|
  {
    if lines != [] { LinesUnmarked(lines[1..]); }
  }

  lemma {:induction false} ContinuationsBefore(t: seq<Token>)
    ensures var (value, rest) := ParseContinuations(t);
            ParseContinuations(t + [PgpEpilogue]) == (value, rest + [PgpEpilogue])
    decreases |t|
  {
    if t != [] && t[0].ValueCont? {
      assert (t + [PgpEpilogue])[1..] == t[1..] + [PgpEpilogue];
      ContinuationsBefore(t[1..]);
    }
  }

  lemma {:induction false} FieldsBefore(t: seq<Token>)
    ensures var (fields, rest) := ParseFields(t);
            ParseFields(t + [PgpEpilogue]) == (fields, rest + [PgpEpilogue])
    decreases |t|
  {
    if t != [] && t[0].FieldStart? {
      assert (t + [PgpEpilogue])[1..] == t[1..] + [PgpEpilogue];
      ContinuationsBefore(t[1..]);
      FieldsBefore(ParseContinuations(t[1..]).1);
    }
  }

  lemma {:induction false} SectionsBefore(t: seq<Token>)
    ensures var (sections, rest) := ParseSections(t);
            ParseSections(t + [PgpEpilogue]) == (sections, rest + [PgpEpilogue])
    decreases |t|
  {
    if t != [] && t[0].SectionHeader? {
      assert (t + [PgpEpilogue])[1..] == t[1..] + [PgpEpilogue];
      FieldsBefore(t[1..]);
      SectionsBefore(ParseFields(t[1..]).1);
    }
  }

  /** Between the markers the grammar accepts what it accepts bare, except nothing at all. */
  lemma ParseBetween(t: seq<Token>)
    requires Unmarked(t)
    ensures ParseIndex([PgpPrologue] + t + [PgpEpilogue]) == if t == [] then None else ParseIndex(t)
  {
    hide ParseSections;
    var s := [PgpPrologue] + t + [PgpEpilogue];
    assert s[1..] == t + [PgpEpilogue];
    SectionsBefore(t);
    var (sections, rest) := ParseSections(t);
    assert rest + [PgpEpilogue] == [PgpEpilogue] <==> rest == [] by {
      assert |rest + [PgpEpilogue]| == |rest| + 1;
    }
    if t == [] { NoSections(); }
  }

  lemma NoSections()
    ensures ParseSections([]) == ([], [])
  {
  }

  /** What is read once the prologue has been eaten up to some plain lines. */
  lemma ReadsAfterPrologue(lines: seq<string>, trailer: string)
    requires Plain(lines)
    ensures ParseIndex([PgpPrologue] + Scan(PrintLines(lines) + Signature(trailer)))
            == if ReadSections(PrintLines(lines)) == Some([]) then None else ReadSections(PrintLines(lines))
  {
    hide Scan, ParseIndex, LinesTokens;
    var t := LinesTokens(lines);
    PlainNoMarkers(lines);
    ScanMarkers(trailer);
    ScanLines(lines, Signature(trailer));
    ScanText(lines);
    LinesUnmarked(lines);
    assert [PgpPrologue] + (t + [PgpEpilogue]) == [PgpPrologue] + t + [PgpEpilogue];
    ParseBetween(t);
    NoneParsed(t);
  }

  /** With at least one armor header, plain lines, and any trailing text, the signed form reads
      as the same sections. An index without any section is the one exception: the grammar
      wants a section between the markers. */
  lemma SignedReads(headers: seq<string>, lines: seq<string>, trailer: string)
    requires Headers(headers) && headers != [] && Plain(lines)
    ensures ReadSections(Signed(headers, PrintLines(lines), trailer))
            == if ReadSections(PrintLines(lines)) == Some([]) then None
               else ReadSections(PrintLines(lines))
  {
    hide Scan, ParseIndex;
    var body := PrintLines(lines) + Signature(trailer);
    ScanMarkers(PrintLines(headers) + "\n" + body);
    EatHeaders(headers, body, false);
    ReadsAfterPrologue(lines, trailer);
  }

  lemma NoneParsed(t: seq<Token>)
    ensures ParseIndex(t) == Some([]) <==> t == []
  {
  }

  // ---- Without an armor header

  /** The first empty line, or the number of lines. */
  function FirstBlank(lines: seq<string>): (b: nat)
    ensures b <= |lines| && (b < |lines| ==> lines[b] == [])
    ensures forall k | 0 <= k < b :: lines[k] != []
  {
    if lines == [] || lines[0] == [] then 0 else 1 + FirstBlank(lines[1..])
  }

  /** The blank line after the first marker does not count as one, since no newline has been
      eaten before it: everything up to the next one goes too. */
  lemma {:induction false} EatLines(lines: seq<string>, rest: string)
    requires forall k | 0 <= k < |lines| :: OneLine(lines[k])
    ensures var b := FirstBlank(lines);
            EatPrologue(PrintLines(lines) + rest, true)
            == if b < |lines| then PrintLines(lines[b + 1..]) + rest else EatPrologue(rest, true)
    decreases |lines|
  {
    hide EatPrologue, PrintLines, FirstBlank;
    if lines == [] {
      PrintNoLines(rest);
    } else {
      var more := PrintLines(lines[1..]) + rest;
      PrintFirst(lines, rest);
      if lines[0] == [] {
        EatBlankLine(more);
      } else {
        EatWithinLine(lines[0], more, true);
        EatLines(lines[1..], rest);
        FirstBlankNext(lines);
      }
    }
  }

  lemma PrintNoLines(rest: string)
    ensures PrintLines([]) + rest == rest && FirstBlank([]) == 0
  {
  }

  lemma PrintFirst(lines: seq<string>, rest: string)
    requires lines != []
    ensures PrintLines(lines) + rest == lines[0] + "\n" + (PrintLines(lines[1..]) + rest)
    ensures lines[0] == [] ==> PrintLines(lines) + rest == "\n" + (PrintLines(lines[1..]) + rest)
    ensures lines[0] == [] ==> FirstBlank(lines) == 0
  {
    assert lines[0] == [] ==> lines[0] + "\n" == "\n";
  }

  lemma EatBlankLine(more: string)
    ensures EatPrologue("\n" + more, true) == more
  {
    assert ("\n" + more)[1..] == more;
  }

  lemma FirstBlankNext(lines: seq<string>)
    requires lines != [] && lines[0] != []
    ensures var b := FirstBlank(lines[1..]);
            FirstBlank(lines) == b + 1 && (b + 1 < |lines| ==> lines[1..][b + 1..] == lines[b + 2..])
  {
  }

  lemma EatBlank(body: string)
    ensures EatPrologue("\n" + body, false) == EatPrologue(body, true)
  {
    assert ("\n" + body)[1..] == body;
  }

  lemma ScanHeaderless(text: string, trailer: string)
    ensures Scan(Signed([], text, trailer))
            == [PgpPrologue] + Scan(EatPrologue(text + Signature(trailer), true))
  {
    hide Scan, EatPrologue;
    var body := text + Signature(trailer);
    ScanMarkers(PrintLines([]) + "\n" + body);
    assert PrintLines([]) + "\n" + body == "\n" + body;
    EatBlank(body);
  }

  lemma PlainParts(lines: seq<string>, i: nat)
    requires Plain(lines) && i <= |lines|
    ensures Plain(lines[i..]) && forall k | 0 <= k < |lines| :: OneLine(lines[k])
  {
  }

  /** So of a text with a blank line the rest is read, as if the lines before it were not there. */
  lemma NoHeaderReads(lines: seq<string>, trailer: string)
    requires Plain(lines) && FirstBlank(lines) < |lines|
    ensures var post := PrintLines(lines[FirstBlank(lines) + 1..]);
            ReadSections(Signed([], PrintLines(lines), trailer))
            == if ReadSections(post) == Some([]) then None else ReadSections(post)
  {
    hide Scan, ParseIndex, EatPrologue, PrintLines, FirstBlank, Signed, Signature, Plain;
    var post := lines[FirstBlank(lines) + 1..];
    PlainParts(lines, FirstBlank(lines) + 1);
    ScanHeaderless(PrintLines(lines), trailer);
    EatLines(lines, Signature(trailer));
    ReadsAfterPrologue(post, trailer);
  }

  /** And a text without a blank line is refused, as long as the trailer holds no other marker. */
  lemma NoHeaderIsRejected(lines: seq<string>, trailer: seq<string>)
    requires Headers(lines) && NoMarkers(trailer)
    ensures ReadSections(Signed([], PrintLines(lines), PrintLines(trailer))) == None
  {
    hide Scan, ParseIndex, EatPrologue, PrintLines, FirstBlank, LinesTokens, Signed, Signature;
    var b := FirstBlank(trailer);
    var left := if b < |trailer| then trailer[b + 1..] else [];
    ScanHeaderless(PrintLines(lines), PrintLines(trailer));
    EatSolid(lines, Signature(PrintLines(trailer)));
    EatSignature(PrintLines(trailer));
    EatLines(trailer, "");
    EatNothing();
    assert PrintLines(trailer) + "" == PrintLines(trailer) && PrintLines(left) + "" == PrintLines(left);
    ScanText(left);
    LinesUnmarked(left);
    NeverEnds(LinesTokens(left));
  }

  lemma EatSignature(rest: string)
    ensures EatPrologue(Signature(rest), true) == EatPrologue(rest, true)
  {
    hide EatPrologue;
    SignatureOneLine();
    assert Signature(rest) == SIGNATURE + "\n" + rest;
    EatWithinLine(SIGNATURE, rest, true);
  }

  lemma EatSolid(lines: seq<string>, rest: string)
    requires Headers(lines)
    ensures EatPrologue(PrintLines(lines) + rest, true) == EatPrologue(rest, true)
  {
    hide EatPrologue, PrintLines;
    assert FirstBlank(lines) == |lines|;
    EatLines(lines, rest);
  }

  lemma EatNothing()
    ensures EatPrologue("", true) == "" == PrintLines([])
  {
  }

  lemma {:induction false} BlankLater(a: seq<string>, b: seq<string>)
    requires forall k | 0 <= k < |a| :: a[k] != []
    ensures FirstBlank(a + b) == |a| + FirstBlank(b)
    decreases |a|
  {
    if a == [] {
      assert a + b == b;
    } else {
      assert (a + b)[1..] == a[1..] + b;
      BlankLater(a[1..], b);
    }
  }

  /** The grammar wants the second marker after the first. */
  lemma NeverEnds(t: seq<Token>)
    requires Unmarked(t)
    ensures ParseIndex([PgpPrologue] + t) == None
  {
    hide ParseSections;
    assert ([PgpPrologue] + t)[1..] == t;
    SectionsLeave(t);
    EpilogueMarks();
  }

  lemma EpilogueMarks()
    ensures !Unmarked([PgpEpilogue])
  {
    assert [PgpEpilogue][0] == PgpEpilogue;
  }

  lemma {:induction false} ContinuationsLeave(t: seq<Token>)
    requires Unmarked(t)
    ensures Unmarked(ParseContinuations(t).1)
    decreases |t|
  {
    if t != [] && t[0].ValueCont? { ContinuationsLeave(t[1..]); }
  }

  lemma {:induction false} FieldsLeave(t: seq<Token>)
    requires Unmarked(t)
    ensures Unmarked(ParseFields(t).1)
    decreases |t|
  {
    if t != [] && t[0].FieldStart? {
      ContinuationsLeave(t[1..]);
      FieldsLeave(ParseContinuations(t[1..]).1);
    }
  }

  lemma {:induction false} SectionsLeave(t: seq<Token>)
    requires Unmarked(t)
    ensures Unmarked(ParseSections(t).1)
    decreases |t|
  {
    if t != [] && t[0].SectionHeader? {
      FieldsLeave(t[1..]);
      SectionsLeave(ParseFields(t[1..]).1);
    }
  }

  lemma SignatureOneLine()
    ensures OneLine(SIGNATURE) && SIGNATURE != []
  {
  }

  lemma {:induction false} PrintLinesConcat(a: seq<string>, b: seq<string>)
    ensures PrintLines(a + b) == PrintLines(a) + PrintLines(b)
    decreases |a|
  {
    if a == [] {
      assert a + b == b;
    } else {
      assert (a + b)[1..] == a[1..] + b;
      PrintLinesConcat(a[1..], b);
    }
  }

  // ---- Which tokens an index was read from

  /** Tokens that each come from one line. */
  predicate Lined(t: seq<Token>) {
    forall k | 0 <= k < |t| ::
      && (t[k].FieldStart? ==> OneLine(t[k].field.value))
      && (t[k].ValueCont? ==> OneLine(t[k].text))
  }

  lemma LineTokensLined(line: string)
    requires OneLine(line)
    ensures Lined(LineTokens(line))
  {
  }

  lemma {:induction false} LinesLined(lines: seq<string>)
    requires forall k | 0 <= k < |lines| :: OneLine(lines[k])
    ensures Lined(LinesTokens(lines))
    decreases |lines|
  {
    hide LineTokens;
    if lines != [] {
      LineTokensLined(lines[0]);
      LinesLined(lines[1..]);
    }
  }

  lemma SplitNewline(text: string, more: string)
    requires OneLine(text)
    ensures Split(text + "\n" + more) == [text] + Split(more)
  {
    FirstLine(text, more);
  }

  /** The tokens of a value's lines, or none. */
  function ValueTokens(value: Option<string>): seq<Token> {
    if value.None? then [] else ContTokens(Split(value.value))
  }

  lemma ValueTokensFirst(text: string, more: Option<string>)
    requires OneLine(text)
    ensures ValueTokens(Some(ConcatNewline(text, more))) == [ValueCont(text)] + ValueTokens(more)
  {
    hide Split, ConcatNewline;
    SplitFirst(text, more);
    var lines := if more.None? then [] else Split(more.value);
    assert Split(ConcatNewline(text, more)) == [text] + lines && ([text] + lines)[1..] == lines;
    assert ContTokens([text] + lines) == [ValueCont(text)] + ContTokens(lines);
  }

  lemma SplitFirst(text: string, more: Option<string>)
    requires OneLine(text)
    ensures Split(ConcatNewline(text, more)) == [text] + if more.None? then [] else Split(more.value)
  {
    if more.None? { SplitOneLine(text); } else { SplitNewline(text, more.value); }
  }

  lemma LinedParts(t: seq<Token>)
    requires Lined(t) && t != []
    ensures Lined([t[0]]) && Lined(t[1..]) && t == [t[0]] + t[1..]
    ensures t[0].FieldStart? ==> OneLine(t[0].field.value)
    ensures t[0].ValueCont? ==> OneLine(t[0].text)
  {
  }

  lemma Regroup(a: seq<Token>, b: seq<Token>, c: seq<Token>, d: seq<Token>)
    ensures a + (b + (c + d)) == a + b + c + d
  {
  }

  lemma {:induction false} ContinuationsFrom(t: seq<Token>)
    requires Lined(t)
    ensures var (value, rest) := ParseContinuations(t);
            Lined(rest) && t == ValueTokens(value) + rest
    decreases |t|
  {
    hide ValueTokens, ConcatNewline, Lined;
    if t != [] && t[0].ValueCont? {
      LinedParts(t);
      ContinuationsFrom(t[1..]);
      var (more, rest) := ParseContinuations(t[1..]);
      ValueTokensFirst(t[0].text, more);
      assert [ValueCont(t[0].text)] + (ValueTokens(more) + rest) == [ValueCont(t[0].text)] + ValueTokens(more) + rest;
    } else {
      NoValueTokens(t);
    }
  }

  lemma NoValueTokens(t: seq<Token>)
    ensures t == ValueTokens(None) + t
  {
  }

  lemma FieldFrom(f: Field, more: Option<string>)
    requires OneLine(f.value)
    ensures FieldTokens(f.(value := ConcatNewline(f.value, more))) == [FieldStart(f)] + ValueTokens(more)
  {
    hide Split;
    SplitFirst(f.value, more);
    var lines := Split(ConcatNewline(f.value, more));
    assert lines[1..] == if more.None? then [] else Split(more.value);
  }

  lemma FieldsTokensFirst(f: Field, fields: seq<Field>)
    ensures FieldsTokens([f] + fields) == FieldTokens(f) + FieldsTokens(fields)
  {
    assert ([f] + fields)[1..] == fields;
  }

  lemma {:induction false} FieldsFrom(t: seq<Token>)
    requires Lined(t)
    ensures var (fields, rest) := ParseFields(t);
            Lined(rest) && t == FieldsTokens(fields) + rest
    decreases |t|
  {
    hide ValueTokens, ConcatNewline, FieldTokens, ParseContinuations, FieldsTokens, Lined;
    if t != [] && t[0].FieldStart? {
      LinedParts(t);
      ContinuationsFrom(t[1..]);
      var (more, rest) := ParseContinuations(t[1..]);
      FieldsFrom(rest);
      var f := t[0].field;
      var (fields, last) := ParseFields(rest);
      FieldFrom(f, more);
      FieldsTokensFirst(f.(value := ConcatNewline(f.value, more)), fields);
      Regroup([FieldStart(f)], ValueTokens(more), FieldsTokens(fields), last);
    } else {
      NoFieldsTokens(t);
    }
  }

  lemma NoFieldsTokens(t: seq<Token>)
    ensures t == FieldsTokens([]) + t
  {
  }

  lemma SectionsTokensFirst(s: Section, sections: seq<Section>)
    ensures SectionsTokens([s] + sections)
            == [SectionHeader(s.name)] + FieldsTokens(s.fields) + SectionsTokens(sections)
  {
    assert ([s] + sections)[1..] == sections;
  }

  lemma {:induction false} SectionsFrom(t: seq<Token>)
    requires Lined(t)
    ensures var (sections, rest) := ParseSections(t); t == SectionsTokens(sections) + rest
    decreases |t|
  {
    hide FieldsTokens, ParseFields, SectionsTokens, Lined;
    if t != [] && t[0].SectionHeader? {
      LinedParts(t);
      FieldsFrom(t[1..]);
      var (fields, rest) := ParseFields(t[1..]);
      SectionsFrom(rest);
      var (sections, last) := ParseSections(rest);
      SectionsTokensFirst(Section(t[0].name, fields), sections);
      Regroup([SectionHeader(t[0].name)], FieldsTokens(fields), SectionsTokens(sections), last);
    } else {
      NoSectionsTokens(t);
    }
  }

  lemma NoSectionsTokens(t: seq<Token>)
    ensures t == SectionsTokens([]) + t
  {
  }

  /** The sections read tell the tokens they were read from. */
  lemma TokensFrom(t: seq<Token>)
    requires Lined(t) && Unmarked(t) && ParseIndex(t).Some?
    ensures t == SectionsTokens(ParseIndex(t).value)
  {
    if t != [] {
      SectionsFrom(t);
      var (sections, rest) := ParseSections(t);
      assert SectionsTokens(sections) + [] == SectionsTokens(sections);
    }
  }

  /** Without an armor header, a text that can be read bare reads the same exactly when it has a
      blank line, says nothing before the first one, and says something after it. */
  lemma NoHeaderExact(lines: seq<string>, trailer: seq<string>)
    requires Plain(lines) && NoMarkers(trailer) && ReadSections(PrintLines(lines)).Some?
    ensures ReadSections(Signed([], PrintLines(lines), PrintLines(trailer))) == ReadSections(PrintLines(lines))
            <==> FirstBlank(lines) < |lines| && LinesTokens(lines[..FirstBlank(lines)]) == []
                 && LinesTokens(lines) != []
  {
    hide ReadSections, LinesTokens, PrintLines, FirstBlank, Signed, Plain, NoMarkers, ParseIndex, Lined, Unmarked,
         Headers;
    var b := FirstBlank(lines);
    if b == |lines| {
      SolidToEnd(lines);
      NoHeaderIsRejected(lines, trailer);
    } else {
      var post := lines[b + 1..];
      NoHeaderReads(lines, PrintLines(trailer));
      PlainParts(lines, b + 1);
      ReadTokens(lines);
      ReadTokens(post);
      SplitAtBlank(lines);
      ExactOnTokens(LinesTokens(lines), LinesTokens(lines[..b]), LinesTokens(post));
    }
  }

  lemma ExactOnTokens(t: seq<Token>, pre: seq<Token>, post: seq<Token>)
    requires t == pre + post && Lined(t) && Unmarked(t) && Lined(post) && Unmarked(post) && ParseIndex(t).Some?
    ensures (if ParseIndex(post) == Some([]) then None else ParseIndex(post)) == ParseIndex(t)
            <==> pre == [] && t != []
  {
    hide ParseIndex, Lined, Unmarked;
    SameIndex(t, post);
    NoneParsed(t);
    NoneParsed(post);
    assert t == post <==> pre == [] by {
      assert |t| == |pre| + |post|;
    }
  }

  lemma SolidToEnd(lines: seq<string>)
    requires Plain(lines) && FirstBlank(lines) == |lines|
    ensures Headers(lines)
  {
  }

  lemma ReadTokens(lines: seq<string>)
    requires Plain(lines)
    ensures ReadSections(PrintLines(lines)) == ParseIndex(LinesTokens(lines))
    ensures Lined(LinesTokens(lines)) && Unmarked(LinesTokens(lines))
  {
    hide Scan, ParseIndex, LinesTokens, PrintLines;
    PlainNoMarkers(lines);
    ScanText(lines);
    LinesLined(lines);
    LinesUnmarked(lines);
  }

  lemma SplitAtBlank(lines: seq<string>)
    requires FirstBlank(lines) < |lines|
    ensures var b := FirstBlank(lines);
            LinesTokens(lines) == LinesTokens(lines[..b]) + LinesTokens(lines[b + 1..])
  {
    hide LinesTokens, FirstBlank;
    var b := FirstBlank(lines);
    PartsAt(lines, b);
    LinesTokensConcat(lines[..b], [[]] + lines[b + 1..]);
    BlankSaysNothing(lines[b + 1..]);
  }

  lemma PartsAt(lines: seq<string>, b: nat)
    requires b < |lines| && lines[b] == []
    ensures lines == lines[..b] + ([[]] + lines[b + 1..])
  {
  }

  /** Only the same tokens read as the same sections. */
  lemma SameIndex(t: seq<Token>, u: seq<Token>)
    requires Lined(t) && Unmarked(t) && Lined(u) && Unmarked(u) && ParseIndex(t).Some?
    ensures ParseIndex(t) == ParseIndex(u) <==> t == u
  {
    hide ParseIndex, Lined, Unmarked;
    TokensFrom(t);
    if ParseIndex(u).Some? { TokensFrom(u); }
  }

  lemma BlankSaysNothing(post: seq<string>)
    ensures LinesTokens([[]] + post) == LinesTokens(post)
  {
    assert ([[]] + post)[1..] == post;
  }

  // ---- Printed indexes

  /** Continuation lines. */
  function ContLines(lines: seq<string>): seq<string> {
    if lines == [] then [] else [" " + lines[0]] + ContLines(lines[1..])
  }

  function FieldLines(f: Field): seq<string> {
    var lines := Split(f.value);
    [FieldHead(f.key, f.subkey) + lines[0]] + ContLines(lines[1..])
  }

  function FieldsLines(fs: seq<Field>): seq<string> {
    if fs == [] then [] else FieldLines(fs[0]) + FieldsLines(fs[1..])
  }

  function SectionsLines(ss: seq<Section>): seq<string> {
    if ss == [] then [] else SectionLines(ss[0]) + ([[]] + SectionsLines(ss[1..]))
  }

  /** The lines of a section but the blank one at its end. */
  function SectionLines(s: Section): seq<string> {
    ["[" + s.name + "]"] + FieldsLines(s.fields)
  }

  /** Plain lines, none of them blank. */
  predicate Solid(lines: seq<string>) {
    Plain(lines) && Headers(lines)
  }

  lemma {:induction false} ContLinesAre(lines: seq<string>)
    requires forall k | 0 <= k < |lines| :: OneLine(lines[k])
    ensures PrintLines(ContLines(lines)) == PrintContinuations(lines) && Solid(ContLines(lines))
    decreases |lines|
  {
    if lines != [] {
      ContLinesAre(lines[1..]);
      assert ContLines(lines)[1..] == ContLines(lines[1..]);
    }
  }

  lemma FieldLinesAre(f: Field)
    requires LegalKey(f.key, f.subkey)
    ensures PrintLines(FieldLines(f)) == PrintField(f) && Solid(FieldLines(f))
  {
    hide Split, LineTokens;
    var lines := Split(f.value);
    var first := f.(value := lines[0]);
    var head := FieldHead(f.key, f.subkey) + lines[0];
    ContLinesAre(lines[1..]);
    FieldLine(first);
    LegalOneLine(f.key, f.subkey);
    assert FieldLines(f)[1..] == ContLines(lines[1..]);
    assert OneLine(head) && head != [] && head[0] != '-';
    assert head + "\n" + PrintContinuations(lines[1..])
           == FieldHead(f.key, f.subkey) + lines[0] + "\n" + PrintContinuations(lines[1..]);
  }

  lemma {:induction false} FieldsLinesAre(fs: seq<Field>)
    requires LegalFields(fs)
    ensures PrintLines(FieldsLines(fs)) == PrintFields(fs) && Solid(FieldsLines(fs))
    decreases |fs|
  {
    hide FieldLines, PrintField;
    if fs != [] {
      FieldLinesAre(fs[0]);
      FieldsLinesAre(fs[1..]);
      PrintLinesConcat(FieldLines(fs[0]), FieldsLines(fs[1..]));
    }
  }

  lemma SectionLinesAre(s: Section)
    requires s.name != [] && AllName(s.name) && LegalFields(s.fields)
    ensures PrintLines(SectionLines(s)) + "\n" == PrintSection(s) && Solid(SectionLines(s))
  {
    hide FieldsLines, PrintFields, LineTokens;
    var head := "[" + s.name + "]";
    FieldsLinesAre(s.fields);
    SectionLine(s.name);
    assert SectionLines(s)[1..] == FieldsLines(s.fields);
    assert head + "\n" + PrintFields(s.fields) + "\n" == "[" + s.name + "]\n" + PrintFields(s.fields) + "\n";
  }

  lemma {:induction false} SectionsLinesAre(ss: seq<Section>)
    requires LegalSections(ss)
    ensures PrintLines(SectionsLines(ss)) == PrintSections(ss) && Plain(SectionsLines(ss))
    decreases |ss|
  {
    hide SectionLines, PrintSection;
    if ss != [] {
      var more := [[]] + SectionsLines(ss[1..]);
      SectionLinesAre(ss[0]);
      SectionsLinesAre(ss[1..]);
      assert more[1..] == SectionsLines(ss[1..]);
      PrintLinesConcat(SectionLines(ss[0]), more);
      assert PrintLines(more) == "\n" + PrintLines(SectionsLines(ss[1..]));
    }
  }

  /** A printed index of any sections reads the same when it is signed with an armor header. */
  lemma SignedSections(headers: seq<string>, ss: seq<Section>, trailer: string)
    requires Headers(headers) && headers != [] && LegalSections(ss) && ss != []
    ensures ReadSections(Signed(headers, PrintSections(ss), trailer)) == Some(ss)
  {
    hide ReadSections;
    SectionsLinesAre(ss);
    SignedReads(headers, SectionsLines(ss), trailer);
    SectionsRoundTrip(ss);
  }

  /** Without an armor header it loses its first section, and is refused if that was the only one:
      a printed section ends in a blank line. */
  lemma FirstSectionLost(ss: seq<Section>, trailer: string)
    requires LegalSections(ss) && ss != []
    ensures ReadSections(Signed([], PrintSections(ss), trailer))
            == if |ss| == 1 then None else Some(ss[1..])
  {
    hide ReadSections, SectionLines, SectionsLines, PrintSections, PrintLines, Signed, FirstBlank;
    var lines := SectionsLines(ss);
    SectionsLinesAre(ss);
    SectionsLinesAre(ss[1..]);
    FirstSectionEnds(ss);
    NoHeaderReads(lines, trailer);
    SectionsRoundTrip(ss[1..]);
  }

  lemma FirstSectionEnds(ss: seq<Section>)
    requires LegalSections(ss) && ss != []
    ensures var lines := SectionsLines(ss); var b := FirstBlank(lines);
            b < |lines| && lines[b + 1..] == SectionsLines(ss[1..])
  {
    hide SectionLines, FirstBlank;
    var first, more := SectionLines(ss[0]), SectionsLines(ss[1..]);
    SectionLinesAre(ss[0]);
    hide SectionsLines;
    BlankAt(first, more);
    SectionsLinesIs(ss);
  }

  lemma SectionsLinesIs(ss: seq<Section>)
    requires ss != []
    ensures SectionsLines(ss) == SectionLines(ss[0]) + ([[]] + SectionsLines(ss[1..]))
  {
  }

  lemma BlankAt(first: seq<string>, more: seq<string>)
    requires forall k | 0 <= k < |first| :: first[k] != []
    ensures var lines := first + ([[]] + more);
            FirstBlank(lines) == |first| < |lines| && lines[|first| + 1..] == more
  {
    BlankLater(first, [[]] + more);
  }
}
