/** A printed index as a whole, signed with and without an armor header. */
module IndexSignedEntries {
  import opened IndexScan
  import opened IndexGrammar
  import opened IndexEntry
  import opened IndexRoundTrip
  import opened IndexSigned
  import opened Wrappers

  lemma EntriesLegal(entries: seq<(string, Entry)>)
    requires WellFormedIndex(entries)
    ensures LegalSections(SectionsOf(entries)) && IndexText(entries) == PrintSections(SectionsOf(entries))
  {
    hide WellFormed, FieldsOf;
    IndexTextIs(entries);
    forall k | 0 <= k < |entries| ensures LegalFields(FieldsOf(entries[k].1)) { FieldsLegal(entries[k].1); }
  }

  /** What is read depends on the sections of the text only. */
  lemma SameSections(a: string, b: string, uri: string)
    requires ReadSections(a) == ReadSections(b)
    ensures GetIndex(a, uri) == GetIndex(b, uri)
  {
  }

  lemma {:induction false} RestOf(entries: seq<(string, Entry)>)
    requires WellFormedIndex(entries) && entries != []
    ensures WellFormedIndex(entries[1..]) && SectionsOf(entries[1..]) == SectionsOf(entries)[1..]
  {
  }

  /** Writing any entries, signing the text with at least one armor header, and reading it back
      gives the same entries with their paths resolved. */
  lemma {:induction false} SignedRoundTrip(entries: seq<(string, Entry)>, headers: seq<string>, trailer: string,
                                           uri: string)
    requires WellFormedIndex(entries) && entries != [] && Headers(headers) && headers != []
    ensures GetIndex(Signed(headers, IndexText(entries), trailer), uri) == Ok(ResolvedIndex(entries, uri))
    ensures AllReadBack(ResolvedIndex(entries, uri), entries, uri)
  {
    hide WellFormedIndex, ReadSections, GetIndex, PrintSections, SectionsOf, LegalSections;
    var ss := SectionsOf(entries);
    EntriesLegal(entries);
    assert ss != [] by { SameLength(entries); }
    SignedSections(headers, ss, trailer);
    SectionsRoundTrip(ss);
    SameSections(Signed(headers, IndexText(entries), trailer), IndexText(entries), uri);
    WellFormedAll(entries);
    IndexRoundTrip.IndexRoundTrip(entries, uri);
  }

  lemma SameLength(entries: seq<(string, Entry)>)
    ensures |SectionsOf(entries)| == |entries|
  {
  }

  lemma WellFormedAll(entries: seq<(string, Entry)>)
    requires WellFormedIndex(entries)
    ensures forall k | 0 <= k < |entries| :: WellFormed(entries[k].1)
  {
  }

  /** Without an armor header the first entry is lost without a word, and an index of one entry is
      refused. */
  lemma {:induction false} FirstEntryLost(entries: seq<(string, Entry)>, trailer: string, uri: string)
    requires WellFormedIndex(entries) && entries != []
    ensures forall k | 0 <= k < |entries| :: WellFormed(entries[k].1)
    ensures GetIndex(Signed([], IndexText(entries), trailer), uri)
            == if |entries| == 1 then SyntaxError else Ok(ResolvedIndex(entries[1..], uri))
  {
    hide WellFormedIndex, ReadSections, PrintSections, SectionsOf, LegalSections, IndexText;
    var ss := SectionsOf(entries);
    WellFormedAll(entries);
    SameLength(entries);
    RestOf(entries);
    EntriesLegal(entries);
    FirstSectionLost(ss, trailer);
    if 1 < |entries| {
      hide GetIndex;
      EntriesLegal(entries[1..]);
      SectionsRoundTrip(ss[1..]);
      SameSections(Signed([], IndexText(entries), trailer), IndexText(entries[1..]), uri);
      IndexRoundTrip.IndexRoundTrip(entries[1..], uri);
    }
  }

  /** An entry with nothing but what it must have. */
  function Plainest(fileUri: string): Entry {
    Entry(None, None, fileUri, Arch("x86_64"), None, None, RevInt(1), None, 1, None, None, None, [], false, None)
  }

  lemma PlainestWellFormed(fileUri: string)
    requires OneLine(fileUri) && fileUri != [] && fileUri[0] != '/' && ':' !in fileUri
    ensures WellFormed(Plainest(fileUri))
  {
    NoColon(fileUri);
  }

  lemma {:induction false} NoColon(s: string)
    requires ':' !in s
    ensures !Contains(s, "://")
    decreases |s|
  {
    assert "://"[0] == ':';
    if s != [] { NoColon(s[1..]); }
  }

  lemma TwoWellFormed(a: (string, Entry), b: (string, Entry))
    requires WellFormed(a.1) && WellFormed(b.1) && a.0 != b.0
    requires a.0 != [] && AllName(a.0) && b.0 != [] && AllName(b.0)
    ensures WellFormedIndex([a, b]) && WellFormedIndex([b])
  {
    hide WellFormed;
  }

  function Two(): seq<(string, Entry)> {
    [("fedora-30", Plainest("f30.xz")), ("fedora-31", Plainest("f31.xz"))]
  }

  lemma TwoAre()
    ensures |Two()| == 2 && WellFormedIndex(Two()) && WellFormedIndex(Two()[1..])
  {
    hide WellFormed, Plainest;
    PlainestWellFormed("f30.xz");
    PlainestWellFormed("f31.xz");
    TwoWellFormed(("fedora-30", Plainest("f30.xz")), ("fedora-31", Plainest("f31.xz")));
    assert Two()[1..] == [("fedora-31", Plainest("f31.xz"))];
  }

  /** Of this index of two entries only the second is read. */
  lemma TwoEntries(uri: string)
    ensures GetIndex(Signed([], IndexText(Two()), ""), uri) == GetIndex(IndexText(Two()[1..]), uri)
    ensures var r := GetIndex(Signed([], IndexText(Two()), ""), uri); r.Ok? && |r.entries| == 1 && |Two()| == 2
  {
    hide WellFormedIndex, WellFormed, GetIndex, IndexText, Two;
    TwoAre();
    FirstEntryLost(Two(), "", uri);
    IndexRoundTrip.IndexRoundTrip(Two()[1..], uri);
    var last := Two()[1..];
    assert |last| == 1 && last[1..] == [];
    assert ResolvedIndex(last[1..], uri) == [];
  }
}
