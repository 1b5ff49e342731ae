/** The scanner of the virt-builder index format: line by line, each line one token or none,
    with the two marker lines that wrap a cleartext signature. */
module IndexScan {
  import opened Wrappers

  /** A field before and after its continuation lines are joined to it. */
  datatype Field = Field(key: string, subkey: Option<string>, value: string)

  datatype Token =
    | SectionHeader(name: string)
    | FieldStart(field: Field)
    | ValueCont(text: string)
    | PgpPrologue
    | PgpEpilogue
    | UnknownLine

  const SIGNED_MESSAGE: string := "-----BEGIN PGP SIGNED MESSAGE-----"
  const SIGNATURE: string := "-----BEGIN PGP SIGNATURE-----"

  predicate Alnum(c: char) {
    'A' <= c <= 'Z' || 'a' <= c <= 'z' || '0' <= c <= '9'
  }

  predicate NameChar(c: char) { Alnum(c) || c == '-' || c == '.' || c == '_' }
  predicate KeyChar(c: char) { Alnum(c) || c == '_' || c == '.' }
  predicate SubkeyChar(c: char) { Alnum(c) || c == '_' || c == ',' || c == '.' }
  predicate Blank(c: char) { c == ' ' || c == '\t' }

  predicate AllName(s: string) { forall k | 0 <= k < |s| :: NameChar(s[k]) }
  predicate AllKey(s: string) { forall k | 0 <= k < |s| :: KeyChar(s[k]) }
  predicate AllSubkey(s: string) { forall k | 0 <= k < |s| :: SubkeyChar(s[k]) }
  predicate AllBlank(s: string) { forall k | 0 <= k < |s| :: Blank(s[k]) }

  /** The first position at which c stands, or the length. */
  function Find(s: string, c: char): (k: nat)
    ensures k <= |s| && (k < |s| ==> s[k] == c)
    ensures forall j | 0 <= j < k :: s[j] != c
  {
    if s == [] || s[0] == c then 0 else 1 + Find(s[1..], c)
  }

  lemma FindIs(s: string, c: char, k: nat)
    requires k < |s| && s[k] == c && forall j | 0 <= j < k :: s[j] != c
    ensures Find(s, c) == k
  {
  }

  /** A line "[name]" with blanks after it. */
  function SectionName(line: string): Option<string> {
    var k := Find(line, ']');
    if |line| != 0 && line[0] == '[' && 2 <= k < |line| && AllName(line[1..k]) && AllBlank(line[k + 1..])
    then Some(line[1..k]) else None
  }

  /** Where the key of a field line ends: at the first '=' or '['. */
  function KeyEnd(line: string): (k: nat)
    ensures k <= |line|
  {
    var e, b := Find(line, '='), Find(line, '[');
    if e < b then e else b
  }

  /** A line "key=value" or "key[subkey]=value". */
  function FieldOf(line: string): Option<Field> {
    var i := KeyEnd(line);
    if i == 0 || i == |line| || !AllKey(line[..i]) then None
    else if line[i] == '=' then Some(Field(line[..i], None, line[i + 1..]))
    else
      var rest := line[i + 1..];
      var j := Find(rest, ']');
      if 0 < j && j + 1 < |rest| && rest[j + 1] == '=' && AllSubkey(rest[..j])
      then Some(Field(line[..i], Some(rest[..j]), rest[j + 2..])) else None
  }

  /** What comes after the first blank line that has a newline character before it in the text
      eaten so far; prevnl tells whether the character before s was eaten and is a newline. */
  function EatPrologue(s: string, prevnl: bool): (r: string)
    ensures |r| <= |s|
  {
    if s == [] then []
    else if s[0] == '\n' && prevnl then s[1..]
    else EatPrologue(s[1..], s[0] == '\n')
  }

  /** The loop that eats the signature's prologue, one character at a time. */
  method EatPrologueLoop(s: string) returns (rest: string)
    ensures rest == EatPrologue(s, false)
  {
    var i, prevnl := 0, false;
    while i < |s|
      invariant i <= |s| && EatPrologue(s[i..], prevnl) == EatPrologue(s, false)
    {
      var c := s[i];
      i := i + 1;
      if c == '\n' && prevnl { return s[i..]; }
      prevnl := c == '\n';
    }
    rest := s[i..];
  }

  /** The token of a line, if it has one, apart from the two marker lines. */
  function LineTokens(line: string): seq<Token> {
    if line == [] || line[0] == '#' then []
    else if Blank(line[0]) then [ValueCont(line[1..])]
    else if SectionName(line).Some? then [SectionHeader(SectionName(line).value)]
    else if FieldOf(line).Some? then [FieldStart(FieldOf(line).value)]
    else [UnknownLine]
  }

  /** The tokens of a text. A last line without a newline, and a line of no known form, is an
      unknown line; the grammar has no place for one, so it does not matter where after it the
      scanner goes on. */
  function Scan(s: string): seq<Token>
    decreases |s|
  {
    var k := Find(s, '\n');
    if s == [] then []
    else if k == |s| then [UnknownLine]
    else
      var line, rest := s[..k], s[k + 1..];
      if line == SIGNED_MESSAGE then [PgpPrologue] + Scan(EatPrologue(rest, false))
      else if line == SIGNATURE then [PgpEpilogue]
      else LineTokens(line) + Scan(rest)
  }

  predicate OneLine(s: string) {
    '\n' !in s
  }

  lemma FirstLine(line: string, rest: string)
    requires OneLine(line)
    ensures var s := line + "\n" + rest;
            Find(s, '\n') == |line| && s[..|line|] == line && s[|line| + 1..] == rest
  {
    var s := line + "\n" + rest;
    forall j | 0 <= j < |line| ensures s[j] != '\n' { assert line[j] in line; }
    FindIs(s, '\n', |line|);
  }

  lemma ScanLine(line: string, rest: string)
    requires OneLine(line) && line != SIGNED_MESSAGE && line != SIGNATURE
    ensures Scan(line + "\n" + rest) == LineTokens(line) + Scan(rest)
  {
    hide LineTokens;
    FirstLine(line, rest);
  }

  lemma NoDash(line: string)
    requires line == [] || line[0] != '-'
    ensures line != SIGNED_MESSAGE && line != SIGNATURE
  {
    assert SIGNED_MESSAGE[0] == '-' && SIGNATURE[0] == '-';
  }

  lemma SectionLine(name: string)
    requires name != [] && AllName(name)
    ensures OneLine("[" + name + "]") && LineTokens("[" + name + "]") == [SectionHeader(name)]
  {
    var line := "[" + name + "]";
    forall j | 0 <= j < |line| ensures line[j] != '\n' && (j < |name| + 1 ==> line[j] != ']') {
      if 1 <= j <= |name| { assert NameChar(name[j - 1]); }
    }
    FindIs(line, ']', |name| + 1);
    assert line[1..|name| + 1] == name && line[|name| + 2..] == [];
  }

  lemma ScanSection(name: string, rest: string)
    requires name != [] && AllName(name)
    ensures Scan("[" + name + "]\n" + rest) == [SectionHeader(name)] + Scan(rest)
  {
    hide LineTokens;
    SectionLine(name);
    NoDash("[" + name + "]");
    ScanLine("[" + name + "]", rest);
    assert "[" + name + "]\n" + rest == ("[" + name + "]") + "\n" + rest;
  }

  function FieldHead(key: string, subkey: Option<string>): string {
    key + (if subkey.None? then "" else "[" + subkey.value + "]") + "="
  }

  predicate LegalKey(key: string, subkey: Option<string>) {
    && key != [] && AllKey(key)
    && (subkey.Some? ==> subkey.value != [] && AllSubkey(subkey.value))
  }

  /** Where the key of a line ends that starts with one. */
  lemma KeyEndIs(key: string, rest: string)
    requires AllKey(key) && rest != [] && (rest[0] == '=' || rest[0] == '[')
    ensures KeyEnd(key + rest) == |key| && (key + rest)[..|key|] == key && (key + rest)[|key| + 1..] == rest[1..]
  {
    var line := key + rest;
    forall j | 0 <= j < |key| ensures line[j] != '=' && line[j] != '[' {
      assert line[j] == key[j] && KeyChar(key[j]);
    }
    FindIs(line, rest[0], |key|);
  }

  lemma PlainField(key: string, value: string)
    requires key != [] && AllKey(key)
    ensures FieldOf(key + ("=" + value)) == Some(Field(key, None, value))
  {
    hide KeyEnd, AllKey;
    KeyEndIs(key, "=" + value);
    assert ("=" + value)[1..] == value;
  }

  lemma SubkeyField(key: string, sub: string, value: string)
    requires LegalKey(key, Some(sub))
    ensures FieldOf(key + ("[" + (sub + ("]=" + value)))) == Some(Field(key, Some(sub), value))
  {
    var rest := sub + ("]=" + value);
    forall j | 0 <= j < |sub| ensures rest[j] != ']' {
      assert rest[j] == sub[j] && SubkeyChar(sub[j]);
    }
    FindIs(rest, ']', |sub|);
    assert rest[..|sub|] == sub && rest[|sub| + 2..] == value;
    KeyEndIs(key, "[" + rest);
    assert ("[" + rest)[1..] == rest;
    hide KeyEnd, AllKey, AllSubkey, Find;
  }

  lemma FieldOfLine(f: Field)
    requires LegalKey(f.key, f.subkey)
    ensures FieldOf(FieldHead(f.key, f.subkey) + f.value) == Some(f)
  {
    hide FieldOf, AllKey, AllSubkey;
    if f.subkey.None? {
      PlainField(f.key, f.value);
      assert f.key + "" + "=" + f.value == f.key + ("=" + f.value);
    } else {
      var sub := f.subkey.value;
      SubkeyField(f.key, sub, f.value);
      assert f.key + ("[" + sub + "]") + "=" + f.value == f.key + ("[" + (sub + ("]=" + f.value)));
    }
  }

  lemma FieldLine(f: Field)
    requires LegalKey(f.key, f.subkey)
    ensures var line := FieldHead(f.key, f.subkey) + f.value;
            LineTokens(line) == [FieldStart(f)] && line[0] != '-'
  {
    hide FieldOf;
    var line := FieldHead(f.key, f.subkey) + f.value;
    FieldOfLine(f);
    assert line[0] == f.key[0] && KeyChar(f.key[0]);
  }

  lemma ScanField(f: Field, rest: string)
    requires LegalKey(f.key, f.subkey) && OneLine(f.value)
    ensures Scan(FieldHead(f.key, f.subkey) + f.value + "\n" + rest) == [FieldStart(f)] + Scan(rest)
  {
    hide LineTokens, FieldHead;
    var line := FieldHead(f.key, f.subkey) + f.value;
    FieldLine(f);
    LegalOneLine(f.key, f.subkey);
    NoDash(line);
    ScanLine(line, rest);
  }

  lemma LegalOneLine(key: string, subkey: Option<string>)
    requires LegalKey(key, subkey)
    ensures OneLine(FieldHead(key, subkey))
  {
  }

  /** Any line at all is taken in as a continuation once it has a blank before it. */
  lemma {:induction false} ScanCont(text: string, rest: string)
    requires OneLine(text)
    ensures Scan(" " + text + "\n" + rest) == [ValueCont(text)] + Scan(rest)
  {
    hide Scan;
    var line := " " + text;
    NoDash(line);
    ScanLine(line, rest);
    assert line[1..] == text;
  }

  lemma ScanBlank(rest: string)
    ensures Scan("\n" + rest) == Scan(rest)
  {
    hide Scan;
    NoDash("");
    ScanLine("", rest);
    assert "" + "\n" + rest == "\n" + rest;
  }
}
