/** The text format of signing-key files: printing, framing, folding and parsing
    (crates/deltaship-crypto/src/keys.rs). */
module KeyFile {
  import opened Text
  import opened Bytes

  const CURRENT_VERSION: u8 := 1

  const PLAIN_HEADER: string := "-----BEGIN DELTASHIP SIGNING KEY-----"
  const PLAIN_FOOTER: string := "-----END DELTASHIP SIGNING KEY-----"
  const SEALED_HEADER: string := "-----BEGIN DELTASHIP ENCRYPTED SIGNING KEY-----"
  const SEALED_FOOTER: string := "-----END DELTASHIP ENCRYPTED SIGNING KEY-----"

  const VERSION: string := "version:"
  const LEVEL: string := "security_level:"
  const SALT: string := "salt:"
  const NONCE: string := "nonce:"
  const CIPHERTEXT: string := "ciphertext:"
  const MARKER: string := "-----"

  datatype Level = Standard | High | Maximum

  datatype Metadata = Metadata(version: u8, level: Level, salt: seq<u8>, nonce: seq<u8>, ciphertext: seq<u8>)

  datatype Key = Plain(bytes: seq<u8>) | Sealed(metadata: Metadata)

  datatype Error = BadFormat | BadVersion | BadSalt | BadNonce | OddHex | BadHexChar | BadLength | LegacyFormat

  datatype Result<+T> = Ok(value: T) | Err(error: Error)

  /* Hex */

  predicate IsHexDigit(c: char) {
    '0' <= c <= '9' || 'a' <= c <= 'f' || 'A' <= c <= 'F'
  }

  function HexValue(c: char): (d: int)
    requires IsHexDigit(c)
    ensures 0 <= d < 16
  {
    if c <= '9' then c as int - '0' as int
    else if c <= 'F' then c as int - 'A' as int + 10
    else c as int - 'a' as int + 10
  }

  function HexChar(d: int): (c: char)
    requires 0 <= d < 16
    ensures IsHexDigit(c) && HexValue(c) == d && !IsWhitespace(c)
  {
    if d < 10 then ('0' as int + d) as char else ('a' as int + d - 10) as char
  }

  predicate AllHex(s: string) {
    forall i | 0 <= i < |s| :: IsHexDigit(s[i])
  }

  function Hex(data: seq<u8>): (s: string)
    ensures |s| == 2 * |data| && AllHex(s)
  {
    if data == [] then "" else [HexChar(data[0] as int / 16), HexChar(data[0] as int % 16)] + Hex(data[1..])
  }

  function Unhex(s: string): seq<u8>
    requires |s| % 2 == 0 && AllHex(s)
    decreases |s|
  {
    if s == "" then [] else [16 * HexValue(s[0]) + HexValue(s[1])] + Unhex(s[2..])
  }

  lemma {:induction false} UnhexHex(data: seq<u8>)
    ensures Unhex(Hex(data)) == data
  {
    if data != [] {
      UnhexHex(data[1..]);
      assert Hex(data)[2..] == Hex(data[1..]);
    }
  }

  function NonSpace(s: string): (r: string)
    decreases |s|
  {
    if s == "" then "" else if IsWhitespace(s[0]) then NonSpace(s[1..]) else [s[0]] + NonSpace(s[1..])
  }

  /** The length tested for parity is that of the UTF-8 text. */
  function DecodeHex(text: string): Result<seq<u8>> {
    var s := NonSpace(text);
    if |Utf8(s)| % 2 != 0 then Err(OddHex)
    else if !AllHex(s) then Err(BadHexChar)
    else
      AsciiUtf8(s);
      Ok(Unhex(s))
  }

  predicate HexLines(lines: seq<string>) {
    forall i | 0 <= i < |lines| :: lines[i] != "" && AllHex(lines[i])
  }

  /** The text in pieces of 64 characters, the last one possibly shorter. */
  function Chunks(s: string): (r: seq<string>)
    ensures AllHex(s) ==> HexLines(r)
    ensures s != "" <==> r != []
    decreases |s|
  {
    if s == "" then [] else if |s| <= 64 then [s] else [s[..64]] + Chunks(s[64..])
  }

  function EncodeKeyData(data: seq<u8>): string {
    Join(Chunks(Hex(data)), '\n')
  }

  /* Printing */

  function LevelText(level: Level): string {
    match level
    case Standard => "standard"
    case High => "high"
    case Maximum => "maximum"
  }

  function Print(key: Key): string {
    match key
    case Plain(bytes) => Join([PLAIN_HEADER, EncodeKeyData(bytes), PLAIN_FOOTER, ""], '\n')
    case Sealed(m) =>
      Join([SEALED_HEADER,
            VERSION + " " + Numeral(m.version),
            LEVEL + " " + LevelText(m.level),
            SALT + " " + Hex(m.salt),
            NONCE + " " + Hex(m.nonce),
            CIPHERTEXT + " " + EncodeKeyData(m.ciphertext),
            SEALED_FOOTER,
            ""], '\n')
  }

  /* Parsing */

  predicate HasPrefix(s: string, p: string) {
    |p| <= |s| && s[..|p|] == p
  }

  /** The text after a field name, trimmed. */
  function Value(line: string, field: string): string
    requires HasPrefix(line, field)
  {
    Trim(line[|field|..])
  }

  function StripFrame(s: string, header: string, footer: string): Option<string> {
    if !HasPrefix(s, header) then None
    else
      var t := s[|header|..];
      if |footer| <= |t| && t[|t| - |footer|..] == footer then Some(t[..|t| - |footer|]) else None
  }

  /** `str::lines`: no empty last line, and no carriage return before a line end. */
  function Lines(s: string): seq<string> {
    var parts := Split(s, '\n');
    var kept := if parts[|parts| - 1] == "" then parts[..|parts| - 1] else parts;
    seq(|kept|, i requires 0 <= i < |kept| => StripCr(kept[i]))
  }

  function StripCr(line: string): string {
    if line != "" && line[|line| - 1] == '\r' then line[..|line| - 1] else line
  }

  /** `str::parse::<u8>`: an optional plus sign and digits. */
  function ParseU8(s: string): Option<u8> {
    var digits := if s != "" && s[0] == '+' then s[1..] else s;
    if digits != "" && AllDigits(digits) && NumeralValue(digits) < 256 then Some(NumeralValue(digits)) else None
  }

  function ParseLevel(s: string): Option<Level> {
    if s == "standard" then Some(Standard)
    else if s == "high" then Some(High)
    else if s == "maximum" then Some(Maximum)
    else None
  }

  /** What the fields seen so far hold. */
  datatype Fields = Fields(version: Option<u8>, level: Option<Level>, salt: Option<seq<u8>>, nonce: Option<seq<u8>>,
                           data: seq<string>)

  function Take(f: Fields, line: string): Result<Fields> {
    var l := Trim(line);
    if l == "" then Ok(f)
    else if HasPrefix(l, VERSION) then
      var v := ParseU8(Value(l, VERSION));
      if v.None? then Err(BadVersion) else Ok(f.(version := v))
    else if HasPrefix(l, LEVEL) then
      var v := ParseLevel(Value(l, LEVEL));
      if v.None? then Err(BadFormat) else Ok(f.(level := v))
    else if HasPrefix(l, SALT) then
      var v := DecodeHex(Value(l, SALT));
      if v.Err? then Err(BadSalt) else Ok(f.(salt := Some(v.value)))
    else if HasPrefix(l, NONCE) then
      var v := DecodeHex(Value(l, NONCE));
      if v.Err? then Err(BadNonce) else Ok(f.(nonce := Some(v.value)))
    else if HasPrefix(l, CIPHERTEXT) then Ok(f.(data := f.data + [Value(l, CIPHERTEXT)]))
    else if !HasPrefix(l, MARKER) then Ok(f.(data := f.data + [l]))
    else Ok(f)
  }

  function Scan(f: Fields, lines: seq<string>): Result<Fields>
    decreases |lines|
  {
    if lines == [] then Ok(f)
    else
      var next := Take(f, lines[0]);
      if next.Err? then next else Scan(next.value, lines[1..])
  }

  function Assemble(f: Fields): Result<Metadata> {
    if f.version.None? then Err(BadVersion)
    else if f.salt.None? then Err(BadSalt)
    else if f.nonce.None? then Err(BadNonce)
    else
      var c := DecodeHex(Join(f.data, '\n'));
      if c.Err? then Err(c.error)
      else
        var level := if f.level.Some? then f.level.value else Standard;
        Ok(Metadata(f.version.value, level, f.salt.value, f.nonce.value, c.value))
  }

  const NO_FIELDS: Fields := Fields(None, None, None, None, [])

  function Parse(data: string): Result<Metadata> {
    var f := Scan(NO_FIELDS, Lines(data));
    if f.Err? then Err(f.error) else Assemble(f.value)
  }

  method ParseMetadata(data: string) returns (r: Result<Metadata>)
    ensures r == Parse(data)
  {
    var version: Option<u8>, level: Option<Level> := None, None;
    var salt: Option<seq<u8>>, nonce: Option<seq<u8>>, ciphertextLines: seq<string> := None, None, [];
    var lines := Lines(data);
    var i := 0;
    while i < |lines|
      invariant 0 <= i <= |lines|
      invariant Scan(NO_FIELDS, lines) == Scan(Fields(version, level, salt, nonce, ciphertextLines), lines[i..])
    {
      assert lines[i..][0] == lines[i] && lines[i..][1..] == lines[i + 1..];
      var line := Trim(lines[i]);
      i := i + 1;
      if line == "" {
        continue;
      }
      if HasPrefix(line, VERSION) {
        version := ParseU8(Value(line, VERSION));
        if version.None? {
          return Err(BadVersion);
        }
      } else if HasPrefix(line, LEVEL) {
        level := ParseLevel(Value(line, LEVEL));
        if level.None? {
          return Err(BadFormat);
        }
      } else if HasPrefix(line, SALT) {
        var s := DecodeHex(Value(line, SALT));
        if s.Err? {
          return Err(BadSalt);
        }
        salt := Some(s.value);
      } else if HasPrefix(line, NONCE) {
        var n := DecodeHex(Value(line, NONCE));
        if n.Err? {
          return Err(BadNonce);
        }
        nonce := Some(n.value);
      } else if HasPrefix(line, CIPHERTEXT) {
        ciphertextLines := ciphertextLines + [Value(line, CIPHERTEXT)];
      } else if !HasPrefix(line, MARKER) {
        ciphertextLines := ciphertextLines + [line];
      }
    }
    return Assemble(Fields(version, level, salt, nonce, ciphertextLines));
  }

  predicate Contains(s: string, p: string) {
    exists i | 0 <= i <= |s| - |p| :: s[i..][..|p|] == p
  }

  /** A printed sealed key, read back as far as its metadata. */
  function ReadSealed(text: string): Result<Metadata> {
    var data := StripFrame(Trim(text), SEALED_HEADER, SEALED_FOOTER);
    if data.None? then Err(BadFormat)
    else if !Contains(Trim(data.value), VERSION) then Err(LegacyFormat)
    else Parse(Trim(data.value))
  }

  /** `load_signing_key` up to the point where the passphrase is used. */
  function Load(text: string): Result<Key> {
    var content := Trim(text);
    if HasPrefix(content, SEALED_HEADER) then
      var m := ReadSealed(text);
      if m.Err? then Err(m.error)
      else if m.value.version != CURRENT_VERSION then Err(BadVersion)
      else if |m.value.salt| != 16 then Err(BadSalt)
      else if |m.value.nonce| != 12 then Err(BadNonce)
      else Ok(Sealed(m.value))
    else if HasPrefix(content, PLAIN_HEADER) then
      var data := StripFrame(content, PLAIN_HEADER, PLAIN_FOOTER);
      if data.None? then Err(BadFormat)
      else
        var bytes := DecodeHex(Trim(data.value));
        if bytes.Err? then Err(bytes.error)
        else if |bytes.value| != 32 then Err(BadLength)
        else Ok(Plain(bytes.value))
    else Err(BadFormat)
  }

  /* Trimming */

  lemma {:induction false} TrimEndConcat(p: string, s: string)
    requires TrimEnd(s) != ""
    ensures TrimEnd(p + s) == p + TrimEnd(s)
    decreases |s|
  {
    assert s != "";
    if IsWhitespace(s[|s| - 1]) {
      TrimEndConcat(p, s[..|s| - 1]);
      assert (p + s)[..|p + s| - 1] == p + s[..|s| - 1];
    }
  }

  /** Text with something that is not white space at both ends. */
  predicate Solid(s: string) {
    s != "" && !IsWhitespace(s[0]) && !IsWhitespace(s[|s| - 1])
  }

  lemma DropLineEnd(s: string)
    requires Solid(s)
    ensures Trim(s + ['\n']) == s
  {
    var t := s + ['\n'];
    assert TrimStart(t) == t;
    assert t[..|t| - 1] == s;
    assert TrimEnd(t) == TrimEnd(s);
  }

  lemma {:induction false} NonSpaceConcat(a: string, b: string)
    ensures NonSpace(a + b) == NonSpace(a) + NonSpace(b)
    decreases |a|
  {
    if a == "" {
      assert a + b == b;
    } else {
      NonSpaceConcat(a[1..], b);
      assert (a + b)[0] == a[0] && (a + b)[1..] == a[1..] + b;
      var rest, tail := NonSpace(a[1..]), NonSpace(b);
      assert [a[0]] + (rest + tail) == ([a[0]] + rest) + tail;
    }
  }

  lemma {:induction false} NonSpaceTrimEnd(s: string)
    ensures NonSpace(TrimEnd(s)) == NonSpace(s)
    decreases |s|
  {
    if s != "" && IsWhitespace(s[|s| - 1]) {
      var front := s[..|s| - 1];
      NonSpaceTrimEnd(front);
      NonSpaceConcat(front, [s[|s| - 1]]);
      assert s == front + [s[|s| - 1]];
    }
  }

  lemma {:induction false} NonSpaceTrimStart(s: string)
    ensures NonSpace(TrimStart(s)) == NonSpace(s)
    decreases |s|
  {
    if s != "" && IsWhitespace(s[0]) {
      NonSpaceTrimStart(s[1..]);
    }
  }

  lemma NonSpaceTrim(s: string)
    ensures NonSpace(Trim(s)) == NonSpace(s)
  {
    NonSpaceTrimStart(s);
    NonSpaceTrimEnd(TrimStart(s));
  }

  lemma {:induction false} NonSpaceHex(s: string)
    requires AllHex(s)
    ensures NonSpace(s) == s
    decreases |s|
  {
    if s != "" {
      NonSpaceHex(s[1..]);
    }
  }

  lemma DecodeOfHex(data: seq<u8>)
    ensures DecodeHex(Hex(data)) == Ok(data)
  {
    NonSpaceHex(Hex(data));
    AsciiUtf8(Hex(data));
    UnhexHex(data);
  }

  /** Folding loses nothing once white space is ignored. */
  lemma {:induction false} NonSpaceFolded(s: string)
    requires AllHex(s)
    ensures NonSpace(Join(Chunks(s), '\n')) == s
    decreases |s|
  {
    NonSpaceHex(s);
    if |s| > 64 {
      var head, tail := s[..64], s[64..];
      NonSpaceFolded(tail);
      NonSpaceHex(head);
      assert Chunks(s)[1..] == Chunks(tail);
      var rest := Join(Chunks(tail), '\n');
      NonSpaceConcat(head + ['\n'], rest);
      NonSpaceConcat(head, ['\n']);
      assert s == head + tail;
    }
  }

  lemma DecodeOfFolded(data: seq<u8>)
    ensures DecodeHex(EncodeKeyData(data)) == Ok(data)
  {
    NonSpaceFolded(Hex(data));
    AsciiUtf8(Hex(data));
    UnhexHex(data);
  }

  /* Fields */

  lemma LabelledLine(field: string, v: string)
    requires Solid(field) && (v == "" || Solid(v))
    ensures var l := Trim(field + " " + v);
            && l == (if v == "" then field else field + " " + v)
            && HasPrefix(l, field) && Value(l, field) == v
    ensures Trim(field) == field && Value(field, field) == ""
  {
    var line := field + " " + v;
    assert TrimStart(line) == line;
    if v == "" {
      assert line[..|line| - 1] == field;
      assert TrimEnd(line) == TrimEnd(field);
    } else {
      assert line[|line| - 1] == v[|v| - 1];
      assert line[|field|..] == " " + v;
      assert TrimStart(" " + v) == TrimStart(v) by { assert (" " + v)[1..] == v; }
    }
  }

  /** A folded line of hex digits is a continuation: never a field, never a marker. */
  lemma HexLineIsData(f: Fields, line: string)
    requires line != "" && AllHex(line)
    ensures Take(f, line) == Ok(f.(data := f.data + [line]))
  {
    TrimFixed(line);
    NotHex(line, VERSION, 7);
    NotHex(line, LEVEL, 14);
    NotHex(line, SALT, 4);
    NotHex(line, NONCE, 5);
    NotHex(line, CIPHERTEXT, 10);
    NotHex(line, MARKER, 0);
  }

  lemma NotHex(line: string, p: string, i: nat)
    requires AllHex(line) && i < |p| && !IsHexDigit(p[i])
    ensures !HasPrefix(line, p)
  {
    if |p| <= |line| {
      assert line[..|p|][i] == line[i];
    }
  }

  lemma {:induction false} ScanHexLines(f: Fields, lines: seq<string>)
    requires HexLines(lines)
    ensures Scan(f, lines) == Ok(f.(data := f.data + lines))
    decreases |lines|
  {
    if lines == [] {
      assert f.data + lines == f.data;
    } else {
      HexLineIsData(f, lines[0]);
      ScanHexLines(f.(data := f.data + [lines[0]]), lines[1..]);
      assert f.data + lines == f.data + [lines[0]] + lines[1..];
    }
  }

  lemma VersionLine(f: Fields, v: u8)
    ensures Take(f, VERSION + " " + Numeral(v)) == Ok(f.(version := Some(v)))
  {
    var digits := Numeral(v);
    LabelledLine(VERSION, digits);
    ValueOfNumeral(v);
  }

  lemma LevelLine(f: Fields, level: Level)
    ensures Take(f, LEVEL + " " + LevelText(level)) == Ok(f.(level := Some(level)))
  {
    LabelledLine(LEVEL, LevelText(level));
    Differs(Trim(LEVEL + " " + LevelText(level)), VERSION, 0);
  }

  lemma Differs(line: string, p: string, i: nat)
    requires i < |p| && i < |line| && line[i] != p[i]
    ensures !HasPrefix(line, p)
  {
    if |p| <= |line| {
      assert line[..|p|][i] == line[i];
    }
  }

  lemma SaltLine(f: Fields, salt: seq<u8>)
    ensures Take(f, SALT + " " + Hex(salt)) == Ok(f.(salt := Some(salt)))
  {
    LabelledLine(SALT, Hex(salt));
    DecodeOfHex(salt);
    var l := Trim(SALT + " " + Hex(salt));
    NotOther(l);
  }

  lemma NotOther(l: string)
    requires HasPrefix(l, SALT)
    ensures !HasPrefix(l, VERSION) && !HasPrefix(l, LEVEL)
  {
    assert l[0] == l[..|SALT|][0] == 's' && l[1] == l[..|SALT|][1] == 'a';
    Differs(l, VERSION, 0);
    Differs(l, LEVEL, 1);
  }

  lemma NonceLine(f: Fields, nonce: seq<u8>)
    ensures Take(f, NONCE + " " + Hex(nonce)) == Ok(f.(nonce := Some(nonce)))
  {
    LabelledLine(NONCE, Hex(nonce));
    DecodeOfHex(nonce);
    var l := Trim(NONCE + " " + Hex(nonce));
    Differs(l, VERSION, 0);
    Differs(l, LEVEL, 0);
    Differs(l, SALT, 0);
  }

  /** The ciphertext line, with or without the space that trimming the file may have taken. */
  lemma CiphertextLine(f: Fields, line: string, first: string)
    requires AllHex(first)
    requires line == CIPHERTEXT + " " + first || (first == "" && line == CIPHERTEXT)
    ensures Take(f, line) == Ok(f.(data := f.data + [first]))
  {
    LabelledLine(CIPHERTEXT, first);
    var l := Trim(line);
    Differs(l, VERSION, 0);
    Differs(l, LEVEL, 0);
    Differs(l, SALT, 0);
    Differs(l, NONCE, 0);
  }

  /* The printed file */

  function FieldLines(m: Metadata): seq<string> {
    [VERSION + " " + Numeral(m.version), LEVEL + " " + LevelText(m.level), SALT + " " + Hex(m.salt),
     NONCE + " " + Hex(m.nonce)]
  }

  /** The ciphertext lines as they are once the file has been trimmed. */
  function DataLines(ciphertext: seq<u8>): (r: seq<string>)
    ensures r != []
  {
    var chunks := Chunks(Hex(ciphertext));
    if chunks == [] then [CIPHERTEXT] else [CIPHERTEXT + " " + chunks[0]] + chunks[1..]
  }

  lemma ScanFieldLines(m: Metadata, rest: seq<string>)
    ensures Scan(NO_FIELDS, FieldLines(m) + rest)
            == Scan(Fields(Some(m.version), Some(m.level), Some(m.salt), Some(m.nonce), []), rest)
  {
    var ls := FieldLines(m) + rest;
    var f := NO_FIELDS;
    VersionLine(f, m.version);
    var f1 := f.(version := Some(m.version));
    LevelLine(f1, m.level);
    var f2 := f1.(level := Some(m.level));
    SaltLine(f2, m.salt);
    var f3 := f2.(salt := Some(m.salt));
    NonceLine(f3, m.nonce);
    assert ls[1..][0] == ls[1] && ls[1..][1..] == ls[2..];
    assert ls[2..][0] == ls[2] && ls[2..][1..] == ls[3..];
    assert ls[3..][0] == ls[3] && ls[3..][1..] == ls[4..] == rest;
    assert Scan(f, ls) == Scan(f1, ls[1..]);
    assert Scan(f1, ls[1..]) == Scan(f2, ls[2..]);
    assert Scan(f2, ls[2..]) == Scan(f3, ls[3..]);
  }

  lemma ScanDataLines(f: Fields, ciphertext: seq<u8>)
    requires f.data == []
    ensures Scan(f, DataLines(ciphertext)).Ok?
    ensures var r := Scan(f, DataLines(ciphertext)).value;
            r.(data := []) == f && DecodeHex(Join(r.data, '\n')) == Ok(ciphertext)
  {
    var chunks := Chunks(Hex(ciphertext));
    DecodeOfFolded(ciphertext);
    if chunks == [] {
      CiphertextLine(f, CIPHERTEXT, "");
      assert [CIPHERTEXT][1..] == [];
    } else {
      ScanFolded(f, chunks);
    }
  }

  lemma ScanFolded(f: Fields, chunks: seq<string>)
    requires f.data == [] && chunks != [] && HexLines(chunks)
    ensures Scan(f, [CIPHERTEXT + " " + chunks[0]] + chunks[1..]) == Ok(f.(data := chunks))
  {
    var ls := [CIPHERTEXT + " " + chunks[0]] + chunks[1..];
    CiphertextLine(f, ls[0], chunks[0]);
    var f1 := f.(data := f.data + [chunks[0]]);
    ScanHexLines(f1, chunks[1..]);
    assert ls[1..] == chunks[1..];
    assert f1.data + chunks[1..] == chunks;
  }

  predicate OneLine(s: string) {
    '\n' !in s && '\r' !in s
  }

  lemma HexIsOneLine(s: string)
    requires AllHex(s)
    ensures OneLine(s)
  {
  }

  lemma FieldLinesAreLines(m: Metadata)
    ensures forall l | l in FieldLines(m) :: OneLine(l)
  {
    HexIsOneLine(Hex(m.salt));
    HexIsOneLine(Hex(m.nonce));
    HexIsOneLine(Numeral(m.version));
    NamesAreOneLine(m.level);
    LabelledIsOneLine(VERSION, Numeral(m.version));
    LabelledIsOneLine(LEVEL, LevelText(m.level));
    LabelledIsOneLine(SALT, Hex(m.salt));
    LabelledIsOneLine(NONCE, Hex(m.nonce));
  }

  lemma NamesAreOneLine(level: Level)
    ensures OneLine(VERSION) && OneLine(LEVEL) && OneLine(SALT) && OneLine(NONCE) && OneLine(LevelText(level))
  {
  }

  lemma LabelledIsOneLine(field: string, v: string)
    requires OneLine(field) && OneLine(v)
    ensures OneLine(field + " " + v)
  {
  }

  lemma DataLinesAreLines(ciphertext: seq<u8>)
    ensures forall l | l in DataLines(ciphertext) :: OneLine(l)
    ensures DataLines(ciphertext)[|DataLines(ciphertext)| - 1] != ""
  {
    var chunks := Chunks(Hex(ciphertext));
    forall i | 0 <= i < |chunks| ensures OneLine(chunks[i]) {
      HexIsOneLine(chunks[i]);
    }
  }

  lemma LinesOfJoin(ls: seq<string>)
    requires ls != [] && ls[|ls| - 1] != "" && forall l | l in ls :: OneLine(l)
    ensures Lines(Join(ls, '\n')) == ls
  {
    SplitJoin(ls, '\n');
    forall i | 0 <= i < |ls| ensures StripCr(ls[i]) == ls[i] {
      assert OneLine(ls[i]);
    }
  }

  lemma {:induction false} FoldedIsSolid(chunks: seq<string>)
    requires chunks != [] && HexLines(chunks)
    ensures Solid(Join(chunks, '\n'))
    decreases |chunks|
  {
    if |chunks| > 1 {
      FoldedIsSolid(chunks[1..]);
    }
  }

  lemma TrimmedData(ciphertext: seq<u8>)
    ensures TrimEnd(CIPHERTEXT + " " + EncodeKeyData(ciphertext) + ['\n']) == Join(DataLines(ciphertext), '\n')
  {
    var chunks, ls := Chunks(Hex(ciphertext)), DataLines(ciphertext);
    var c := CIPHERTEXT + " " + EncodeKeyData(ciphertext);
    assert (c + ['\n'])[..|c|] == c;
    assert TrimEnd(c + ['\n']) == TrimEnd(c);
    if chunks == [] {
      assert c[..|c| - 1] == CIPHERTEXT;
      assert TrimEnd(c) == TrimEnd(CIPHERTEXT);
    } else {
      FoldedIsSolid(chunks);
      assert c[|c| - 1] == EncodeKeyData(ciphertext)[|EncodeKeyData(ciphertext)| - 1];
      assert ls[1..] == chunks[1..];
      assert Join(ls, '\n') == c;
    }
  }

  /** What is left of a sealed file's text between header and footer. */
  lemma TrimmedBody(m: Metadata)
    ensures var body := Join(FieldLines(m), '\n') + ['\n'] + (CIPHERTEXT + " " + EncodeKeyData(m.ciphertext));
            Trim(['\n'] + body + ['\n']) == Join(FieldLines(m) + DataLines(m.ciphertext), '\n')
  {
    var c := CIPHERTEXT + " " + EncodeKeyData(m.ciphertext);
    var p := Join(FieldLines(m), '\n') + ['\n'];
    var t := ['\n'] + (p + c) + ['\n'];
    FieldLinesStart(m);
    assert t[1..] == p + (c + ['\n']);
    assert TrimStart(t) == t[1..] by {
      assert t[1] == 'v';
      assert TrimStart(t[1..]) == t[1..];
    }
    TrimmedData(m.ciphertext);
    DataLinesNotEmpty(m.ciphertext);
    TrimEndConcat(p, c + ['\n']);
    JoinConcat(FieldLines(m), DataLines(m.ciphertext), '\n');
  }

  lemma FieldLinesStart(m: Metadata)
    ensures HasPrefix(Join(FieldLines(m), '\n'), VERSION)
  {
    var ls := FieldLines(m);
    assert Join(ls, '\n') == ls[0] + ['\n'] + Join(ls[1..], '\n');
    assert Join(ls, '\n')[..|VERSION|] == VERSION;
  }

  lemma DataLinesNotEmpty(ciphertext: seq<u8>)
    ensures Join(DataLines(ciphertext), '\n') != ""
  {
  }

  lemma StripPrintedFrame(header: string, body: string, footer: string)
    requires Solid(header) && Solid(footer)
    ensures var text := Join([header, body, footer, ""], '\n');
            && StripFrame(Trim(text), header, footer) == Some(['\n'] + body + ['\n'])
            && HasPrefix(Trim(text), header)
            && forall i | 0 <= i < |header| :: Trim(text)[i] == header[i]
  {
    var text := Join([header, body, footer, ""], '\n');
    var s := header + (['\n'] + body + ['\n']) + footer;
    JoinFour(header, body, footer);
    DropLineEnd(s);
    assert s[|header|..] == (['\n'] + body + ['\n']) + footer;
    assert s[..|header|] == header;
  }

  lemma JoinFour(a: string, b: string, c: string)
    ensures Join([a, b, c, ""], '\n') == a + (['\n'] + b + ['\n']) + c + ['\n']
  {
    assert [a, b, c, ""][1..] == [b, c, ""];
    assert [b, c, ""][1..] == [c, ""];
    assert [c, ""][1..] == [""];
    assert Join([c, ""], '\n') == c + ['\n'];
    assert Join([b, c, ""], '\n') == b + ['\n'] + (c + ['\n']);
    assert Join([a, b, c, ""], '\n') == a + ['\n'] + (b + ['\n'] + (c + ['\n']));
  }

  lemma PrintSealed(m: Metadata)
    ensures var body := Join(FieldLines(m), '\n') + ['\n'] + (CIPHERTEXT + " " + EncodeKeyData(m.ciphertext));
            Print(Sealed(m)) == Join([SEALED_HEADER, body, SEALED_FOOTER, ""], '\n')
  {
    var c := CIPHERTEXT + " " + EncodeKeyData(m.ciphertext);
    var fields := FieldLines(m);
    var body := Join(fields, '\n') + ['\n'] + c;
    JoinConcat(fields, [c], '\n');
    assert Join(fields + [c], '\n') == body;
    JoinConcat([SEALED_HEADER], fields + [c], '\n');
    JoinConcat([SEALED_HEADER] + (fields + [c]), [SEALED_FOOTER, ""], '\n');
    assert [SEALED_HEADER] + (fields + [c]) + [SEALED_FOOTER, ""]
        == [SEALED_HEADER, fields[0], fields[1], fields[2], fields[3], c, SEALED_FOOTER, ""];
    JoinConcat([SEALED_HEADER], [body], '\n');
    JoinConcat([SEALED_HEADER] + [body], [SEALED_FOOTER, ""], '\n');
    assert [SEALED_HEADER] + [body] + [SEALED_FOOTER, ""] == [SEALED_HEADER, body, SEALED_FOOTER, ""];
  }

  lemma ParsePrinted(m: Metadata)
    ensures Parse(Join(FieldLines(m) + DataLines(m.ciphertext), '\n')) == Ok(m)
  {
    var ls := FieldLines(m) + DataLines(m.ciphertext);
    FieldLinesAreLines(m);
    DataLinesAreLines(m.ciphertext);
    LinesOfJoin(ls);
    ScanFieldLines(m, DataLines(m.ciphertext));
    ScanDataLines(Fields(Some(m.version), Some(m.level), Some(m.salt), Some(m.nonce), []), m.ciphertext);
  }

  /** Reading a printed sealed key gives back its five values: any version byte, level and lengths. */
  lemma SealedRoundTrip(m: Metadata)
    ensures ReadSealed(Print(Sealed(m))) == Ok(m)
  {
    var body := Join(FieldLines(m), '\n') + ['\n'] + (CIPHERTEXT + " " + EncodeKeyData(m.ciphertext));
    PrintSealed(m);
    HeadersAreSolid();
    StripPrintedFrame(SEALED_HEADER, body, SEALED_FOOTER);
    TrimmedBody(m);
    var data := Join(FieldLines(m) + DataLines(m.ciphertext), '\n');
    ParsePrinted(m);
    assert data[0..][..|VERSION|] == VERSION by {
      FieldLinesStart(m);
      JoinConcat(FieldLines(m), DataLines(m.ciphertext), '\n');
    }
  }

  /** What loading checks before it uses the passphrase. */
  predicate Loadable(key: Key) {
    match key
    case Plain(bytes) => |bytes| == 32
    case Sealed(m) => m.version == CURRENT_VERSION && |m.salt| == 16 && |m.nonce| == 12
  }

  /** Loading accepts a printed key exactly when its version and lengths are the current ones, and returns it. */
  lemma LoadPrinted(key: Key)
    ensures Load(Print(key)) == Ok(key) <==> Loadable(key)
    ensures Load(Print(key)).Ok? ==> Load(Print(key)) == Ok(key)
  {
    match key
    case Plain(bytes) => PlainHeaderFirst(bytes); PlainRoundTrip(bytes);
    case Sealed(m) => SealedHeaderFirst(m); SealedRoundTrip(m);
  }

  lemma PlainHeaderFirst(bytes: seq<u8>)
    ensures var content := Trim(Print(Plain(bytes)));
            !HasPrefix(content, SEALED_HEADER) && HasPrefix(content, PLAIN_HEADER)
  {
    HeadersAreSolid();
    StripPrintedFrame(PLAIN_HEADER, EncodeKeyData(bytes), PLAIN_FOOTER);
    var content := Trim(Print(Plain(bytes)));
    HeadersDiffer();
    Differs(content, SEALED_HEADER, 21);
  }

  lemma HeadersDiffer()
    ensures |PLAIN_HEADER| > 21 && |SEALED_HEADER| > 21 && PLAIN_HEADER[21] != SEALED_HEADER[21]
  {
  }

  lemma SealedHeaderFirst(m: Metadata)
    ensures HasPrefix(Trim(Print(Sealed(m))), SEALED_HEADER)
  {
    HeadersAreSolid();
    PrintSealed(m);
    var body := Join(FieldLines(m), '\n') + ['\n'] + (CIPHERTEXT + " " + EncodeKeyData(m.ciphertext));
    StripPrintedFrame(SEALED_HEADER, body, SEALED_FOOTER);
  }

  lemma PlainRoundTrip(bytes: seq<u8>)
    ensures var data := StripFrame(Trim(Print(Plain(bytes))), PLAIN_HEADER, PLAIN_FOOTER);
            data.Some? && DecodeHex(Trim(data.value)) == Ok(bytes)
  {
    HeadersAreSolid();
    StripPrintedFrame(PLAIN_HEADER, EncodeKeyData(bytes), PLAIN_FOOTER);
    SurroundedBySpace(EncodeKeyData(bytes));
    DecodeOfFolded(bytes);
  }

  lemma SurroundedBySpace(s: string)
    ensures DecodeHex(Trim(['\n'] + s + ['\n'])) == DecodeHex(s)
  {
    NonSpaceTrim(['\n'] + s + ['\n']);
    NonSpaceConcat(['\n'] + s, ['\n']);
    NonSpaceConcat(['\n'], s);
    assert NonSpace(['\n']) == "";
    assert "" + NonSpace(s) + "" == NonSpace(s);
  }

  lemma HeadersAreSolid()
    ensures Solid(PLAIN_HEADER) && Solid(PLAIN_FOOTER) && Solid(SEALED_HEADER) && Solid(SEALED_FOOTER)
  {
    assert PLAIN_HEADER[0] == PLAIN_FOOTER[0] == SEALED_HEADER[0] == SEALED_FOOTER[0] == '-';
    assert |PLAIN_HEADER| == 37 && PLAIN_HEADER[36] == '-';
    assert |PLAIN_FOOTER| == 35 && PLAIN_FOOTER[34] == '-';
    assert |SEALED_HEADER| == 47 && SEALED_HEADER[46] == '-';
    assert |SEALED_FOOTER| == 45 && SEALED_FOOTER[44] == '-';
  }

  /* The format, written out */

  /** The text of an encrypted key. */
  lemma PrintIs(m: Metadata)
    ensures Print(Sealed(m))
            == Join(["-----BEGIN DELTASHIP ENCRYPTED SIGNING KEY-----", "version: " + Numeral(m.version),
                     "security_level: " + (match m.level
                                           case Standard => "standard"
                                           case High => "high"
                                           case Maximum => "maximum"),
                     "salt: " + Hex(m.salt), "nonce: " + Hex(m.nonce), "ciphertext: " + EncodeKeyData(m.ciphertext),
                     "-----END DELTASHIP ENCRYPTED SIGNING KEY-----", ""], '\n')
  {
    assert VERSION + " " == "version: " && LEVEL + " " == "security_level: ";
    assert SALT + " " == "salt: " && NONCE + " " == "nonce: " && CIPHERTEXT + " " == "ciphertext: ";
  }

  lemma PrintPlainIs(bytes: seq<u8>)
    ensures Print(Plain(bytes))
            == Join(["-----BEGIN DELTASHIP SIGNING KEY-----", EncodeKeyData(bytes),
                     "-----END DELTASHIP SIGNING KEY-----", ""], '\n')
  {
  }

  /** Bytes are printed as two lower-case digits each, and read in either case. */
  lemma HexIs(data: seq<u8>, i: nat)
    requires i < |data|
    ensures var digits := "0123456789abcdef";
            && Hex(data)[2 * i] == digits[data[i] as int / 16] && Hex(data)[2 * i + 1] == digits[data[i] as int % 16]
    decreases i
  {
    HexCharIs(data[i] as int / 16);
    HexCharIs(data[i] as int % 16);
    if i > 0 {
      HexIs(data[1..], i - 1);
      assert Hex(data)[2..] == Hex(data[1..]);
    }
  }

  lemma HexCharIs(d: int)
    requires 0 <= d < 16
    ensures HexChar(d) == "0123456789abcdef"[d] && IsHexDigit("0123456789ABCDEF"[d])
    ensures HexValue("0123456789ABCDEF"[d]) == d
  {
    if d < 8 {
      assert d == 0 || d == 1 || d == 2 || d == 3 || d == 4 || d == 5 || d == 6 || d == 7;
    } else {
      assert d == 8 || d == 9 || d == 10 || d == 11 || d == 12 || d == 13 || d == 14 || d == 15;
    }
  }

  /** Folded lines have 64 characters, the last one at least one. */
  lemma {:induction false} ChunksAre(s: string, i: nat)
    requires i < |Chunks(s)|
    ensures if i < |Chunks(s)| - 1 then |Chunks(s)[i]| == 64 else 1 <= |Chunks(s)[i]| <= 64
    decreases |s|
  {
    if |s| > 64 && i > 0 {
      ChunksAre(s[64..], i - 1);
    }
  }

  /** A file without a security level is read as one of the standard level. */
  lemma OldFilesAreStandard(m: Metadata)
    ensures var lines := ["version: " + Numeral(m.version), "salt: " + Hex(m.salt), "nonce: " + Hex(m.nonce)]
                         + DataLines(m.ciphertext);
            Parse(Join(lines, '\n')) == Ok(m.(level := Standard))
  {
    assert VERSION + " " == "version: " && SALT + " " == "salt: " && NONCE + " " == "nonce: ";
    var ls := OldFields(m) + DataLines(m.ciphertext);
    OldLinesAreLines(m);
    DataLinesAreLines(m.ciphertext);
    LinesOfJoin(ls);
    ScanOldLines(m, DataLines(m.ciphertext));
    ScanDataLines(Fields(Some(m.version), None, Some(m.salt), Some(m.nonce), []), m.ciphertext);
  }

  function OldFields(m: Metadata): seq<string> {
    [VERSION + " " + Numeral(m.version), SALT + " " + Hex(m.salt), NONCE + " " + Hex(m.nonce)]
  }

  lemma OldLinesAreLines(m: Metadata)
    ensures forall l | l in OldFields(m) :: OneLine(l)
  {
    FieldLinesAreLines(m);
    assert FieldLines(m)[0] in FieldLines(m) && FieldLines(m)[2] in FieldLines(m) && FieldLines(m)[3] in FieldLines(m);
  }

  lemma ScanOldLines(m: Metadata, rest: seq<string>)
    ensures Scan(NO_FIELDS, OldFields(m) + rest)
            == Scan(Fields(Some(m.version), None, Some(m.salt), Some(m.nonce), []), rest)
  {
    var ls := OldFields(m) + rest;
    var f := NO_FIELDS;
    VersionLine(f, m.version);
    var f1 := f.(version := Some(m.version));
    SaltLine(f1, m.salt);
    var f2 := f1.(salt := Some(m.salt));
    NonceLine(f2, m.nonce);
    assert ls[1..][0] == ls[1] && ls[1..][1..] == ls[2..];
    assert ls[2..][0] == ls[2] && ls[2..][1..] == rest;
    assert Scan(f, ls) == Scan(f1, ls[1..]);
    assert Scan(f1, ls[1..]) == Scan(f2, ls[2..]);
  }

  /** What is missing decides the error, in this order: version, salt, nonce, then the ciphertext's own. */
  lemma MissingFieldIs(data: string)
    requires Scan(NO_FIELDS, Lines(data)).Ok?
    ensures var f := Scan(NO_FIELDS, Lines(data)).value;
            && (f.version == None ==> Parse(data) == Err(BadVersion))
            && (f.version.Some? && f.salt == None ==> Parse(data) == Err(BadSalt))
            && (f.version.Some? && f.salt.Some? && f.nonce == None ==> Parse(data) == Err(BadNonce))
            && (f.version.Some? && f.salt.Some? && f.nonce.Some? ==>
                  match DecodeHex(Join(f.data, '\n'))
                  case Err(e) => Parse(data) == Err(e)
                  case Ok(bytes) =>
                    && Parse(data).Ok? && Parse(data).value.ciphertext == bytes
                    && Some(Parse(data).value.version) == f.version && Some(Parse(data).value.salt) == f.salt
                    && Some(Parse(data).value.nonce) == f.nonce
                    && Parse(data).value.level == (if f.level.Some? then f.level.value else Standard))
  {
  }

  /** Loading tells apart: no known header, a broken frame, the format without a version field, another version, and
      wrong lengths. */
  lemma LoadIs(text: string)
    ensures var content := Trim(text);
            && (|| HasPrefix(content, "-----BEGIN DELTASHIP ENCRYPTED SIGNING KEY-----")
                || HasPrefix(content, "-----BEGIN DELTASHIP SIGNING KEY-----")
                || Load(text) == Err(BadFormat))
            && (HasPrefix(content, "-----BEGIN DELTASHIP ENCRYPTED SIGNING KEY-----") ==>
                  match StripFrame(content, "-----BEGIN DELTASHIP ENCRYPTED SIGNING KEY-----",
                                   "-----END DELTASHIP ENCRYPTED SIGNING KEY-----")
                  case None => Load(text) == Err(BadFormat)
                  case Some(data) =>
                    if !Contains(Trim(data), "version:") then Load(text) == Err(LegacyFormat)
                    else match Parse(Trim(data))
                      case Err(e) => Load(text) == Err(e)
                      case Ok(m) =>
                        Load(text) == if m.version != 1 then Err(BadVersion)
                                      else if |m.salt| != 16 then Err(BadSalt)
                                      else if |m.nonce| != 12 then Err(BadNonce)
                                      else Ok(Sealed(m)))
  {
  }

  /** What one line does: blank lines and markers nothing; each field its own, with its own error; anything else is
      data. */
  lemma TakeIs(f: Fields, line: string)
    ensures var l := Trim(line);
            && (l == "" || HasPrefix(l, "-----") ==> Take(f, line) == Ok(f))
            && (HasPrefix(l, "version:") ==>
                  var v := ParseU8(Trim(l[8..]));
                  Take(f, line) == if v.Some? then Ok(f.(version := v)) else Err(BadVersion))
            && (HasPrefix(l, "security_level:") ==>
                  var v := Trim(l[15..]);
                  Take(f, line) == if v == "standard" then Ok(f.(level := Some(Standard)))
                                   else if v == "high" then Ok(f.(level := Some(High)))
                                   else if v == "maximum" then Ok(f.(level := Some(Maximum)))
                                   else Err(BadFormat))
            && (HasPrefix(l, "salt:") ==>
                  var v := DecodeHex(Trim(l[5..]));
                  Take(f, line) == if v.Ok? then Ok(f.(salt := Some(v.value))) else Err(BadSalt))
            && (HasPrefix(l, "nonce:") ==>
                  var v := DecodeHex(Trim(l[6..]));
                  Take(f, line) == if v.Ok? then Ok(f.(nonce := Some(v.value))) else Err(BadNonce))
            && (HasPrefix(l, "ciphertext:") ==> Take(f, line) == Ok(f.(data := f.data + [Trim(l[11..])])))
  {
    OnePrefix(Trim(line));
  }

  /** No line begins with two of the words. */
  lemma OnePrefix(l: string)
    ensures HasPrefix(l, MARKER) ==> l[0] == '-'
    ensures HasPrefix(l, VERSION) ==> l[0] == 'v'
    ensures HasPrefix(l, LEVEL) ==> l[0] == 's' && l[1] == 'e'
    ensures HasPrefix(l, SALT) ==> l[0] == 's' && l[1] == 'a'
    ensures HasPrefix(l, NONCE) ==> l[0] == 'n'
    ensures HasPrefix(l, CIPHERTEXT) ==> l[0] == 'c'
  {
  }

  /** The version number may have a plus sign and leading zeros, and must be below 256. */
  lemma ParseU8Is(n: nat)
    ensures ParseU8(Numeral(n)) == if n < 256 then Some(n) else None
    ensures ParseU8("+" + Numeral(n)) == ParseU8(Numeral(n)) && ParseU8("") == None && ParseU8("+") == None
  {
    ValueOfNumeral(n);
    assert ("+" + Numeral(n))[1..] == Numeral(n);
    assert "+"[1..] == "";
  }

  /** A frame is taken off exactly if the text is the header, something, and the footer. */
  lemma StripFrameIs(s: string, header: string, footer: string, data: string)
    ensures StripFrame(s, header, footer) == Some(data) <==> s == header + data + footer
  {
    if s == header + data + footer {
      assert s[..|header|] == header && s[|header|..] == data + footer;
    }
    if StripFrame(s, header, footer) == Some(data) {
      assert s == s[..|header|] + s[|header|..];
      assert s[|header|..] == data + footer;
    }
  }

  lemma ContainsIs(s: string, p: string)
    ensures Contains(s, p) <==> exists a, b :: s == a + p + b
  {
    if i :| 0 <= i <= |s| - |p| && s[i..][..|p|] == p {
      assert s == s[..i] + p + s[i..][|p|..];
    }
    if a, b :| s == a + p + b {
      assert s[|a|..][..|p|] == p;
    }
  }

  /** White space is ignored; then an odd number of bytes is one error and any other character another. */
  lemma DecodeHexIs(text: string)
    ensures var s := NonSpace(text);
            && (DecodeHex(text) == Err(OddHex) <==> |Utf8(s)| % 2 == 1)
            && (DecodeHex(text) == Err(BadHexChar) <==> |Utf8(s)| % 2 == 0 && exists c | c in s :: !IsHexDigit(c))
            && (DecodeHex(text).Ok? ==> 2 * |DecodeHex(text).value| == |s|)
  {
    var s := NonSpace(text);
    if AllHex(s) {
      AsciiUtf8(s);
      if |s| % 2 == 0 {
        UnhexLength(s);
      }
    }
  }

  lemma {:induction false} UnhexLength(s: string)
    requires |s| % 2 == 0 && AllHex(s)
    ensures 2 * |Unhex(s)| == |s|
    decreases |s|
  {
    if s != "" {
      UnhexLength(s[2..]);
    }
  }
}
