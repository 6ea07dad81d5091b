/** The stored password hash of internal/auth/password.go: an Argon2id key and its parameters in
    PHC string form. Argon2id is a function value; the salt is an input. */
module PasswordHash {
  import opened Prelude
  import opened Decimal
  import Filename

  const ARGON_VERSION := 19
  const ARGON_MEMORY_KIB := 64 * 1024
  const ARGON_TIME := 3
  const ARGON_THREADS := 4
  const ARGON_KEY_LEN := 32
  const MAX_UINT32 := 0xFFFF_FFFF

  datatype Phc = Phc(salt: bytes, key: bytes, memory: nat, time: nat, threads: nat) {
    /** What the parser lets through. */
    predicate InRange() {
      key != [] && 0 < memory <= MAX_UINT32 && 0 < time <= MAX_UINT32 && 0 < threads <= 255
    }
  }

  // ----- unpadded base64 (section 4 of RFC 4648) -----

  type Sextet = x: int | 0 <= x < 64

  function Symbol(d: Sextet): char {
    if d < 26 then 'A' + d as char
    else if d < 52 then 'a' + (d - 26) as char
    else if d < 62 then '0' + (d - 52) as char
    else if d == 62 then '+' else '/'
  }

  function SextetOf(c: char): Option<Sextet> {
    if 'A' <= c <= 'Z' then Some(c as int - 'A' as int)
    else if 'a' <= c <= 'z' then Some(c as int - 'a' as int + 26)
    else if '0' <= c <= '9' then Some(c as int - '0' as int + 52)
    else if c == '+' then Some(62)
    else if c == '/' then Some(63)
    else None
  }

  lemma SymbolReadsBack(d: Sextet)
    ensures SextetOf(Symbol(d)) == Some(d) && Symbol(d) != '$' && Symbol(d) != '\r' && Symbol(d) != '\n'
  {
  }

  /** The alphabet of table 1 of RFC 4648. */
  lemma Alphabet(d: Sextet)
    ensures d < 26 ==> Symbol(d) == "ABCDEFGHIJKLMNOPQRSTUVWXYZ"[d]
    ensures 26 <= d < 52 ==> Symbol(d) == "abcdefghijklmnopqrstuvwxyz"[d - 26]
    ensures 52 <= d < 62 ==> Symbol(d) == "0123456789"[d - 52]
    ensures Symbol(62) == '+' && Symbol(63) == '/'
  {
  }

  /** Three bytes make four sextets. */
  function Group(a: byte, b: byte, c: byte): (g: seq<Sextet>)
    ensures |g| == 4
  {
    var n := a as int * 65536 + b as int * 256 + c as int;
    [n / 262144, n / 4096 % 64, n / 64 % 64, n % 64]
  }

  function Ungroup(a: Sextet, b: Sextet, c: Sextet, d: Sextet): (g: bytes)
    ensures |g| == 3
  {
    var n := a as int * 262144 + b as int * 4096 + c as int * 64 + d as int;
    [(n / 65536) as byte, (n / 256 % 256) as byte, (n % 256) as byte]
  }

  /** A rest of one or two bytes makes two or three sextets: the full group without its zeros. */
  function Sextets(b: bytes): seq<Sextet> {
    if b == [] then []
    else if |b| == 1 then Group(b[0], 0, 0)[..2]
    else if |b| == 2 then Group(b[0], b[1], 0)[..3]
    else Group(b[0], b[1], b[2]) + Sextets(b[3..])
  }

  /** The decoder ignores the spare bits of a last incomplete group, and refuses a single sextet. */
  function BytesOf(s: seq<Sextet>): Option<bytes> {
    if s == [] then Some([])
    else if |s| == 1 then None
    else if |s| == 2 then Some(Ungroup(s[0], s[1], 0, 0)[..1])
    else if |s| == 3 then Some(Ungroup(s[0], s[1], s[2], 0)[..2])
    else
      match BytesOf(s[4..])
      case None => None
      case Some(rest) => Some(Ungroup(s[0], s[1], s[2], s[3]) + rest)
  }

  lemma GroupNumber(n: int)
    requires 0 <= n < 16777216
    ensures 0 <= n / 262144 < 64
    ensures n / 262144 * 262144 + n / 4096 % 64 * 4096 + n / 64 % 64 * 64 + n % 64 == n
  {
    assert n / 4096 == n / 262144 * 64 + n / 4096 % 64;
    assert n / 64 == n / 4096 * 64 + n / 64 % 64;
  }

  /** Four sextets are the number the three bytes are, most significant first. */
  lemma GroupIsNumber(a: byte, b: byte, c: byte)
    ensures var g := Group(a, b, c);
      ((g[0] as int * 64 + g[1] as int) * 64 + g[2] as int) * 64 + g[3] as int
      == (a as int * 256 + b as int) * 256 + c as int
  {
    GroupNumber(a as int * 65536 + b as int * 256 + c as int);
  }

  lemma Multiple(k: int)
    ensures 64 * k / 64 == k && 64 * k % 64 == 0
  {
  }

  lemma ByteNumber(a: int, b: int, c: int)
    requires 0 <= a < 256 && 0 <= b < 256 && 0 <= c < 256
    ensures var n := a * 65536 + b * 256 + c;
      && 0 <= n < 16777216 && n / 65536 == a && n / 256 % 256 == b && n % 256 == c
      && (c == 0 ==> n % 64 == 0) && (b == 0 && c == 0 ==> n / 64 % 64 == 0)
  {
    var n := a * 65536 + b * 256 + c;
    assert n / 256 == a * 256 + b;
    if c == 0 { Multiple(a * 1024 + b * 4); }
    if b == 0 && c == 0 { Multiple(a * 16); }
  }

  lemma GroupReadsBack(a: byte, b: byte, c: byte)
    ensures var g := Group(a, b, c);
      && Ungroup(g[0], g[1], g[2], g[3]) == [a, b, c]
      && (c == 0 ==> g[3] == 0) && (b == 0 && c == 0 ==> g[2] == 0)
  {
    ByteNumber(a as int, b as int, c as int);
    GroupNumber(a as int * 65536 + b as int * 256 + c as int);
  }

  lemma {:induction false} SextetsReadBack(b: bytes)
    ensures BytesOf(Sextets(b)) == Some(b)
  {
    if |b| == 1 {
      GroupReadsBack(b[0], 0, 0);
      assert b == [b[0], 0, 0][..1];
    } else if |b| == 2 {
      GroupReadsBack(b[0], b[1], 0);
      assert b == [b[0], b[1], 0][..2];
    } else if |b| > 2 {
      GroupReadsBack(b[0], b[1], b[2]);
      SextetsReadBack(b[3..]);
      assert Sextets(b)[4..] == Sextets(b[3..]);
      assert b == [b[0], b[1], b[2]] + b[3..];
    }
  }

  function Spell(s: seq<Sextet>): string {
    seq(|s|, i requires 0 <= i < |s| => Symbol(s[i]))
  }

  /** Carriage returns and line feeds are skipped. */
  function Read(s: string): Option<seq<Sextet>> {
    if s == "" then Some([])
    else if s[0] == '\r' || s[0] == '\n' then Read(s[1..])
    else match (SextetOf(s[0]), Read(s[1..]))
      case (Some(d), Some(rest)) => Some([d] + rest)
      case _ => None
  }

  lemma {:induction false} SpellReadsBack(s: seq<Sextet>)
    ensures Read(Spell(s)) == Some(s)
  {
    if s == [] {
    } else {
      SpellReadsBack(s[1..]);
      SymbolReadsBack(s[0]);
      assert Spell(s)[1..] == Spell(s[1..]);
      assert s == [s[0]] + s[1..];
    }
  }

  function Base64(b: bytes): string {
    Spell(Sextets(b))
  }

  function Unbase64(s: string): Option<bytes> {
    match Read(s) case None => None case Some(sextets) => BytesOf(sextets)
  }

  lemma Base64ReadsBack(b: bytes)
    ensures Unbase64(Base64(b)) == Some(b) && '$' !in Base64(b)
  {
    SextetsReadBack(b);
    SpellReadsBack(Sextets(b));
    forall i | 0 <= i < |Sextets(b)|
      ensures Base64(b)[i] != '$'
    {
      SymbolReadsBack(Sextets(b)[i]);
    }
  }

  lemma {:induction false} ReadAppends(a: string, b: string)
    ensures Read(a + b).Some? <==> Read(a).Some? && Read(b).Some?
    ensures Read(a + b).Some? ==> Read(a + b).value == Read(a).value + Read(b).value
  {
    if a == "" {
      assert a + b == b;
    } else {
      var rest := a[1..] + b;
      assert (a + b)[0] == a[0] && (a + b)[1..] == rest;
      ReadAppends(a[1..], b);
      var d := SextetOf(a[0]);
      if d.Some? && a[0] != '\r' && a[0] != '\n' && Read(rest).Some? {
        Regroup([d.value], Read(a[1..]).value, Read(b).value);
      }
    }
  }

  /** Line breaks anywhere are skipped; any other character outside the alphabet is refused. */
  lemma BreaksAreSkipped(a: string, c: char, b: string)
    requires SextetOf(c) == None
    ensures Unbase64(a + [c] + b) == if c == '\r' || c == '\n' then Unbase64(a + b) else None
  {
    ReadAppends(a + [c], b);
    ReadAppends(a, [c]);
    ReadAppends(a, b);
    assert [c][1..] == "";
    if c == '\r' || c == '\n' {
      assert Read([c]) == Some([]);
      if Read(a).Some? {
        var x := Read(a).value;
        assert x + [] == x;
      }
    } else {
      assert Read([c]) == None;
    }
  }

  lemma DivideUp(a: int, b: int, c: int)
    requires 0 <= b < 256 && 0 <= c < 256
    ensures var n := a * 65536 + b * 256 + c; n / 65536 == a && n / 256 % 256 == b
  {
    var n := a * 65536 + b * 256 + c;
    assert n / 256 == a * 256 + b;
  }

  lemma UngroupIs(a: Sextet, b: Sextet, c: Sextet)
    ensures Ungroup(a, b, c, 0)[0] as int == a as int * 4 + b as int / 16
    ensures Ungroup(a, b, c, 0)[1] as int == b as int % 16 * 16 + c as int / 4
  {
    var x, y, z := a as int, b as int, c as int;
    var first, second, spare := x * 4 + y / 16, y % 16 * 16 + z / 4, z % 4 * 64;
    assert x * 262144 + y * 4096 + z * 64 == first * 65536 + second * 256 + spare;
    DivideUp(first, second, spare);
  }

  /** A last group of one digit is refused; of two or three, the spare bits are ignored. */
  lemma LastGroup(a: Sextet, b: Sextet, c: Sextet)
    ensures BytesOf([a]) == None
    ensures BytesOf([a, b]) == Some([(a as int * 4 + b as int / 16) as byte])
    ensures BytesOf([a, b, c]) == Some([(a as int * 4 + b as int / 16) as byte,
                                        (b as int % 16 * 16 + c as int / 4) as byte])
  {
    UngroupIs(a, b, 0);
    UngroupIs(a, b, c);
    var two, three := Ungroup(a, b, 0, 0), Ungroup(a, b, c, 0);
    assert two[..1] == [two[0]] && three[..2] == [three[0], three[1]];
  }

  // ----- scanning, as fmt.Sscanf does -----

  /** Spaces are skipped before a number; a line break is an error. */
  function SkipSpace(s: string): Option<string> {
    if s == "" then Some(s)
    else if s[0] == '\n' then None
    else if Filename.IsSpace(s[0]) then SkipSpace(s[1..])
    else Some(s)
  }

  function DigitsAhead(s: string): (k: nat)
    ensures k <= |s| && AllDigits(s[..k])
  {
    if s == "" || !IsDigit(s[0]) then 0 else 1 + DigitsAhead(s[1..])
  }

  /** %d into an unsigned number up to `max`: the value and what follows. */
  function ScanUint(s: string, max: nat): Option<(nat, string)> {
    match SkipSpace(s)
    case None => None
    case Some(rest) =>
      var k := DigitsAhead(rest);
      if k == 0 || Value(rest[..k]) > max then None else Some((Value(rest[..k]), rest[k..]))
  }

  /** %d into an int. */
  function ScanInt(s: string): Option<(int, string)> {
    match SkipSpace(s)
    case None => None
    case Some(rest) =>
      var negative := rest != "" && rest[0] == '-';
      var unsigned := if rest != "" && (rest[0] == '-' || rest[0] == '+') then rest[1..] else rest;
      var k := DigitsAhead(unsigned);
      if k == 0 then None
      else
        var size: int := Value(unsigned[..k]);
        var n := if negative then -size else size;
        if -MAX_INT - 1 <= n <= MAX_INT then Some((n, unsigned[k..])) else None
  }

  function Expect(s: string, literal: string): Option<string> {
    if literal <= s then Some(s[|literal|..]) else None
  }

  /** Text after the last verb is ignored. */
  function ScanVersion(s: string): Option<int> {
    match Expect(s, "v=")
    case None => None
    case Some(rest) => match ScanInt(rest) case None => None case Some(r) => Some(r.0)
  }

  /** A name, an equals sign and a number. */
  function ScanField(s: string, name: string): Option<(nat, string)> {
    match Expect(s, name)
    case None => None
    case Some(rest) => ScanUint(rest, MAX_UINT32)
  }

  function ScanParameters(s: string): Option<(nat, nat, nat)> {
    match ScanField(s, "m=")
    case None => None
    case Some(m) =>
      match ScanField(m.1, ",t=")
      case None => None
      case Some(t) =>
        match ScanField(t.1, ",p=")
        case None => None
        case Some(p) => Some((m.0, t.0, p.0))
  }

  /** strings.Split(s, "$") */
  function Split(s: string): (parts: seq<string>)
    ensures parts != []
  {
    if s == "" then [""]
    else
      var rest := Split(s[1..]);
      if s[0] == '$' then [""] + rest else [[s[0]] + rest[0]] + rest[1..]
  }

  // ----- printing and parsing -----

  /** Each part after a dollar sign but the first. */
  function Join(parts: seq<string>): string
    requires parts != []
  {
    if |parts| == 1 then parts[0] else parts[0] + "$" + Join(parts[1..])
  }

  function Parts(h: Phc): seq<string> {
    ["", "argon2id", "v=" + Print(ARGON_VERSION), Parameters(h), Base64(h.salt), Base64(h.key)]
  }

  /** $argon2id$v=..$m=..,t=..,p=..$salt$key */
  function Format(h: Phc): string {
    Join(Parts(h))
  }

  function Parameters(h: Phc): string {
    "m=" + Print(h.memory) + ",t=" + Print(h.time) + ",p=" + Print(h.threads)
  }

  function ParsePhc(encoded: string): Option<Phc> {
    var parts := Split(encoded);
    if |parts| != 6 || parts[0] != "" || parts[1] != "argon2id" then None
    else if ScanVersion(parts[2]) != Some(ARGON_VERSION) then None
    else match (ScanParameters(parts[3]), Unbase64(parts[4]), Unbase64(parts[5]))
      case (Some(q), Some(salt), Some(key)) =>
        if q.0 == 0 || q.1 == 0 || q.2 == 0 || q.2 > 255 || key == [] then None
        else Some(Phc(salt, key, q.0, q.1, q.2))
      case _ => None
  }

  lemma {:induction false} SplitAt(a: string, rest: string)
    requires '$' !in a
    ensures Split(a + "$" + rest) == [a] + Split(rest)
  {
    var s := a + "$" + rest;
    if a == "" {
      assert s[1..] == rest && s[0] == '$';
    } else {
      SplitAt(a[1..], rest);
      assert s[1..] == a[1..] + "$" + rest && s[0] == a[0];
      assert a == [a[0]] + a[1..];
    }
  }

  lemma {:induction false} SplitLast(a: string)
    requires '$' !in a
    ensures Split(a) == [a]
  {
    if a == "" {
    } else {
      SplitLast(a[1..]);
      assert a == [a[0]] + a[1..];
    }
  }

  lemma {:induction false} DigitsThen(d: string, rest: string)
    requires AllDigits(d) && (rest == "" || !IsDigit(rest[0]))
    ensures DigitsAhead(d + rest) == |d|
  {
    if d == "" {
      assert d + rest == rest;
    } else {
      DigitsThen(d[1..], rest);
      assert (d + rest)[1..] == d[1..] + rest;
    }
  }

  lemma PrintedScans(n: nat, rest: string)
    requires n <= MAX_UINT32 && (rest == "" || !IsDigit(rest[0]))
    ensures ScanUint(Print(n) + rest, MAX_UINT32) == Some((n, rest))
    ensures ScanInt(Print(n) + rest) == Some((n, rest))
  {
    var s := Print(n) + rest;
    assert s[0] == Print(n)[0] && IsDigit(s[0]);
    DigitsThen(Print(n), rest);
    assert s[..|Print(n)|] == Print(n) && s[|Print(n)|..] == rest;
    ValueOfPrint(n);
  }

  lemma FieldScans(name: string, n: nat, rest: string)
    requires n <= MAX_UINT32 && (rest == "" || !IsDigit(rest[0]))
    ensures ScanField(name + Print(n) + rest, name) == Some((n, rest))
  {
    var s := name + Print(n) + rest;
    assert s[..|name|] == name && s[|name|..] == Print(n) + rest;
    PrintedScans(n, rest);
  }

  lemma ParametersScan(h: Phc)
    requires h.InRange()
    ensures ScanParameters(Parameters(h)) == Some((h.memory, h.time, h.threads))
  {
    var p := ",p=" + Print(h.threads);
    var t := ",t=" + Print(h.time) + p;
    assert Parameters(h) == "m=" + Print(h.memory) + t;
    assert p == ",p=" + Print(h.threads) + "";
    FieldScans("m=", h.memory, t);
    FieldScans(",t=", h.time, p);
    FieldScans(",p=", h.threads, "");
  }

  lemma VersionScans()
    ensures ScanVersion("v=" + Print(ARGON_VERSION)) == Some(ARGON_VERSION)
  {
    var s := "v=" + Print(ARGON_VERSION);
    assert s[2..] == Print(ARGON_VERSION) + "";
    PrintedScans(ARGON_VERSION, "");
  }

  lemma DigitsHaveNoDollar(s: string)
    requires AllDigits(s)
    ensures '$' !in s
  {
  }

  lemma {:induction false} SplitUndoesJoin(parts: seq<string>)
    requires parts != [] && forall i :: 0 <= i < |parts| ==> '$' !in parts[i]
    ensures Split(Join(parts)) == parts
  {
    if |parts| == 1 {
      SplitLast(parts[0]);
    } else {
      SplitUndoesJoin(parts[1..]);
      SplitAt(parts[0], Join(parts[1..]));
      assert parts == [parts[0]] + parts[1..];
    }
  }

  lemma ParametersHaveNoDollar(h: Phc)
    ensures '$' !in Parameters(h)
  {
    DigitsHaveNoDollar(Print(h.memory));
    DigitsHaveNoDollar(Print(h.time));
    DigitsHaveNoDollar(Print(h.threads));
  }

  lemma FormatSplits(h: Phc)
    ensures Split(Format(h)) == Parts(h)
  {
    DigitsHaveNoDollar(Print(ARGON_VERSION));
    ParametersHaveNoDollar(h);
    Base64ReadsBack(h.salt);
    Base64ReadsBack(h.key);
    SplitUndoesJoin(Parts(h));
  }

  /** The parser recovers what was printed exactly for a nonempty key and in-range parameters. */
  lemma ParseUndoesFormat(h: Phc)
    ensures ParsePhc(Format(h)) == Some(h) <==> h.InRange()
  {
    FormatSplits(h);
    if h.InRange() {
      VersionScans();
      ParametersScan(h);
      Base64ReadsBack(h.salt);
      Base64ReadsBack(h.key);
    } else {
      ParsedIsInRange(Format(h));
    }
  }

  lemma ParsedIsInRange(encoded: string)
    ensures ParsePhc(encoded).Some? ==> ParsePhc(encoded).value.InRange()
  {
    var parts := Split(encoded);
    if ParsePhc(encoded).Some? {
      ParametersBounded(parts[3]);
    }
  }

  lemma ParametersBounded(s: string)
    ensures ScanParameters(s).Some? ==>
      var q := ScanParameters(s).value; q.0 <= MAX_UINT32 && q.1 <= MAX_UINT32 && q.2 <= MAX_UINT32
  {
  }

  /** Reading a stored hash and printing it again changes nothing a reader sees, however it was
      spelled: spaces, leading zeros, text after a number or spare bits. */
  lemma ReprintingIsHarmless(encoded: string)
    requires ParsePhc(encoded).Some?
    ensures ParsePhc(Format(ParsePhc(encoded).value)) == ParsePhc(encoded)
  {
    ParsedIsInRange(encoded);
    ParseUndoesFormat(ParsePhc(encoded).value);
  }

  // ----- hashing and verifying -----

  /** password, salt, time, memory, threads, length */
  type Kdf = (bytes, bytes, nat, nat, nat, nat) -> bytes

  ghost predicate KeepsLength(kdf: Kdf) {
    forall password, salt, t, m, p, n :: |kdf(password, salt, t, m, p, n)| == n
  }

  function HashWith(kdf: Kdf, password: bytes, salt: bytes, memory: nat, time: nat, threads: nat, length: nat): string {
    Format(Phc(salt, kdf(password, salt, time, memory, threads, length), memory, time, threads))
  }

  function HashPassword(kdf: Kdf, password: bytes, salt: bytes): string {
    HashWith(kdf, password, salt, ARGON_MEMORY_KIB, ARGON_TIME, ARGON_THREADS, ARGON_KEY_LEN)
  }

  function VerifyPassword(kdf: Kdf, password: bytes, encoded: string): Option<bool> {
    match ParsePhc(encoded)
    case None => None
    case Some(h) => Some(kdf(password, h.salt, h.time, h.memory, h.threads, |h.key|) == h.key)
  }

  /** A hash made with any parameters, past or future, verifies exactly the passwords that derive
      the same key under them. */
  lemma VerifiesExactly(kdf: Kdf, password: bytes, salt: bytes, memory: nat, time: nat, threads: nat, length: nat,
                        other: bytes)
    requires KeepsLength(kdf) && 0 < length
    requires 0 < memory <= MAX_UINT32 && 0 < time <= MAX_UINT32 && 0 < threads <= 255
    ensures VerifyPassword(kdf, other, HashWith(kdf, password, salt, memory, time, threads, length))
         == Some(kdf(other, salt, time, memory, threads, length) == kdf(password, salt, time, memory, threads, length))
  {
    var key := kdf(password, salt, time, memory, threads, length);
    assert |key| == length;
    ParseUndoesFormat(Phc(salt, key, memory, time, threads));
  }

  /** A password verifies against its own hash. */
  lemma OwnPasswordVerifies(kdf: Kdf, password: bytes, salt: bytes)
    requires KeepsLength(kdf)
    ensures VerifyPassword(kdf, password, HashPassword(kdf, password, salt)) == Some(true)
  {
    VerifiesExactly(kdf, password, salt, ARGON_MEMORY_KIB, ARGON_TIME, ARGON_THREADS, ARGON_KEY_LEN, password);
  }

  /** The key HashPassword derives: 64 MiB, 3 iterations, 4 lanes, 32 bytes. */
  function StandardKey(kdf: Kdf, password: bytes, salt: bytes): bytes {
    kdf(password, salt, 3, 65536, 4, 32)
  }

  /** A stored hash lets in exactly the passwords with the same key. */
  lemma StandardVerifiesExactly(kdf: Kdf, password: bytes, salt: bytes, other: bytes)
    requires KeepsLength(kdf)
    ensures VerifyPassword(kdf, other, HashPassword(kdf, password, salt))
         == Some(StandardKey(kdf, other, salt) == StandardKey(kdf, password, salt))
  {
    VerifiesExactly(kdf, password, salt, ARGON_MEMORY_KIB, ARGON_TIME, ARGON_THREADS, ARGON_KEY_LEN, other);
  }

  lemma JoinTwo(a: string, rest: seq<string>)
    requires rest != []
    ensures Join([a] + rest) == a + "$" + Join(rest)
  {
    assert ([a] + rest)[1..] == rest;
  }

  /** Six parts, a dollar sign between them. */
  lemma JoinSix(a: string, b: string, c: string, d: string, e: string, f: string)
    ensures Join([a, b, c, d, e, f]) == a + "$" + (b + "$" + (c + "$" + (d + "$" + (e + "$" + f))))
  {
    JoinTwo(e, [f]);
    JoinTwo(d, [e, f]);
    JoinTwo(c, [d, e, f]);
    JoinTwo(b, [c, d, e, f]);
    JoinTwo(a, [b, c, d, e, f]);
    assert [e] + [f] == [e, f] && [d] + [e, f] == [d, e, f] && [c] + [d, e, f] == [c, d, e, f];
    assert [b] + [c, d, e, f] == [b, c, d, e, f] && [a] + [b, c, d, e, f] == [a, b, c, d, e, f];
  }

  /** The stored text, from end to end. */
  lemma FormatIs(h: Phc)
    ensures Format(h) == "" + "$" + ("argon2id" + "$" + ("v=" + Print(19) + "$" + (
      "m=" + Print(h.memory) + ",t=" + Print(h.time) + ",p=" + Print(h.threads) + "$" + (
        Base64(h.salt) + "$" + Base64(h.key)))))
  {
    var version, salt, key := "v=" + Print(19), Base64(h.salt), Base64(h.key);
    JoinSix("", "argon2id", version, Parameters(h), salt, key);
  }

  lemma {:induction false} JoinUndoesSplit(s: string)
    ensures Join(Split(s)) == s
  {
    if s == "" {
    } else {
      var rest := Split(s[1..]);
      JoinUndoesSplit(s[1..]);
      assert s == [s[0]] + s[1..];
      if s[0] == '$' {
        assert ([""] + rest)[1..] == rest;
      } else if |rest| == 1 {
        assert rest[1..] == [];
      } else {
        var parts := [[s[0]] + rest[0]] + rest[1..];
        assert parts[1..] == rest[1..];
      }
    }
  }

  /** Only Argon2id hashes of this version are read: any other text is an error, never an answer. */
  lemma OthersAreErrors(kdf: Kdf, password: bytes, encoded: string)
    ensures VerifyPassword(kdf, password, encoded) != None ==> "$argon2id$v=" <= encoded
  {
    if VerifyPassword(kdf, password, encoded) != None {
      var parts := Split(encoded);
      JoinUndoesSplit(encoded);
      assert "v=" <= parts[2];
      var rest := Join(parts[1..][1..]);
      assert parts[1..][1..][0] == parts[2] && parts[2] <= rest;
      assert Join(parts[1..]) == "argon2id" + "$" + rest;
      assert Join(parts) == "" + "$" + Join(parts[1..]);
      assert encoded == "$argon2id$" + rest && "v=" <= rest;
      assert encoded[..12] == "$argon2id$v=";
    }
  }

  lemma SplitThree(a: string, b: string, c: string, rest: string)
    requires '$' !in a && '$' !in b && '$' !in c
    ensures Split(a + "$" + (b + "$" + (c + "$" + rest))) == [a] + ([b] + ([c] + Split(rest)))
  {
    SplitAt(c, rest);
    SplitAt(b, c + "$" + rest);
    SplitAt(a, b + "$" + (c + "$" + rest));
  }

  lemma OtherVersionScans(n: nat)
    requires n <= MAX_UINT32
    ensures ScanVersion("v=" + Print(n)) == Some(n) && '$' !in "v=" + Print(n)
  {
    var v := "v=" + Print(n);
    assert v[2..] == Print(n) + "";
    PrintedScans(n, "");
    DigitsHaveNoDollar(Print(n));
  }

  lemma WrongVersion(encoded: string, version: string)
    requires |Split(encoded)| > 2 && Split(encoded)[2] == version && ScanVersion(version) != Some(ARGON_VERSION)
    ensures ParsePhc(encoded) == None
  {
  }

  /** A hash of another version is an error. */
  lemma VersionMustMatch(kdf: Kdf, password: bytes, n: nat, rest: string)
    requires n != 19 && n <= MAX_UINT32
    ensures VerifyPassword(kdf, password, "" + "$" + ("argon2id" + "$" + ("v=" + Print(n) + "$" + rest))) == None
  {
    var v, name := "v=" + Print(n), "argon2id";
    OtherVersionScans(n);
    SplitThree("", name, v, rest);
    WrongVersion("" + "$" + (name + "$" + (v + "$" + rest)), v);
  }
}
