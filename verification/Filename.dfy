/** SanitizeFilename of internal/files/validate.go. A name is the sequence of code points the
    client sent, a byte that is not UTF-8 counting as U+FFFD (which is what strings.Map makes of
    it); the stored name is a byte string, because the length limit cuts bytes. */
module Filename {
  import opened Prelude

  const MAX_FILENAME_LEN := 255

  /** U+FFFD stands for a byte that is not UTF-8. */
  const REPLACEMENT: char := '\U{FFFD}'

  /** unicode.IsPrint, of which only the printable ASCII range and U+FFFD are fixed here. */
  type PrintTable = p: char -> bool | (forall c :: ' ' <= c <= '~' || c == REPLACEMENT ==> p(c))
    witness (_: char) => true

  function EncodeChar(c: char): (b: bytes)
    ensures 1 <= |b| <= 4
    ensures c as int < 128 ==> b == [c as byte]
    ensures c as int >= 128 ==> forall k :: 0 <= k < |b| ==> b[k] >= 128
  {
    var n := c as int;
    if n < 0x80 then [n as byte]
    else if n < 0x800 then [(0xC0 + n / 64) as byte, (0x80 + n % 64) as byte]
    else if n < 0x10000 then [(0xE0 + n / 4096) as byte, (0x80 + n / 64 % 64) as byte, (0x80 + n % 64) as byte]
    else [(0xF0 + n / 262144) as byte, (0x80 + n / 4096 % 64) as byte, (0x80 + n / 64 % 64) as byte,
          (0x80 + n % 64) as byte]
  }

  function Encode(s: string): (b: bytes)
    ensures |b| >= |s|
  {
    if s == "" then [] else EncodeChar(s[0]) + Encode(s[1..])
  }

  /** unicode.IsSpace. */
  predicate IsSpace(c: char) {
    '\t' <= c <= '\r' || c == ' ' || c == '\U{85}' || c == '\U{A0}' || c == '\U{1680}' ||
    '\U{2000}' <= c <= '\U{200A}' || c == '\U{2028}' || c == '\U{2029}' || c == '\U{202F}' ||
    c == '\U{205F}' || c == '\U{3000}'
  }

  predicate IsSeparator(c: char) {
    c == '/' || c == '\\'
  }

  predicate Kept(isPrint: PrintTable, c: char) {
    !(c < ' ' || c == '\U{7F}' || !isPrint(c))
  }

  function LastElement(s: string): string {
    if s == "" then ""
    else if IsSeparator(s[|s| - 1]) then ""
    else LastElement(s[..|s| - 1]) + [s[|s| - 1]]
  }

  function Filter(keep: char -> bool, s: string): string {
    if s == "" then "" else (if keep(s[0]) then [s[0]] else "") + Filter(keep, s[1..])
  }

  function TrimLeft(cut: char -> bool, s: string): string {
    if s != "" && cut(s[0]) then TrimLeft(cut, s[1..]) else s
  }

  function TrimRight(cut: char -> bool, s: string): string {
    if s != "" && cut(s[|s| - 1]) then TrimRight(cut, s[..|s| - 1]) else s
  }

  function Trim(cut: char -> bool, s: string): string {
    TrimRight(cut, TrimLeft(cut, s))
  }

  predicate IsDot(c: char) {
    c == '.'
  }

  /** Every pass before the length cut. */
  function Clean(isPrint: PrintTable, name: string): string {
    var printable := Filter(c => Kept(isPrint, c), LastElement(name));
    var trimmed := Trim(IsSpace, printable);
    var named := if Trim(IsDot, trimmed) == "" then "" else trimmed;
    if named == "" then "unnamed" else named
  }

  function Cut(b: bytes): bytes {
    if |b| > MAX_FILENAME_LEN then b[..MAX_FILENAME_LEN] else b
  }

  function Sanitize(isPrint: PrintTable, name: string): bytes {
    Cut(Encode(Clean(isPrint, name)))
  }

  // ----- what each pass leaves -----

  lemma {:induction false} LastElementHasNoSeparator(s: string)
    ensures forall c :: c in LastElement(s) ==> !IsSeparator(c)
    ensures (forall c :: c in s ==> !IsSeparator(c)) ==> LastElement(s) == s
  {
    if s == "" {
    } else {
      var init, last := s[..|s| - 1], s[|s| - 1];
      LastElementHasNoSeparator(init);
      assert s == init + [last];
    }
  }

  lemma {:induction false} FilterKeeps(keep: char -> bool, s: string)
    ensures forall c :: c in Filter(keep, s) ==> c in s && keep(c)
    ensures (forall c :: c in s ==> keep(c)) ==> Filter(keep, s) == s
  {
    if s == "" {
    } else {
      FilterKeeps(keep, s[1..]);
      assert s == [s[0]] + s[1..];
    }
  }

  /** Trim leaves a stretch of the string with neither end in the cutset, and leaves nothing
      exactly when everything is in it. */
  lemma {:induction false} TrimLeftEnds(cut: char -> bool, s: string)
    ensures var t := TrimLeft(cut, s);
      && (forall c :: c in t ==> c in s)
      && (t != "" ==> !cut(t[0]) && t[|t| - 1] == s[|s| - 1])
      && (t == "" <==> forall c :: c in s ==> cut(c))
      && (s != "" && !cut(s[0]) ==> t == s)
  {
    if s != "" && cut(s[0]) {
      TrimLeftEnds(cut, s[1..]);
      assert s == [s[0]] + s[1..];
    } else if s != "" {
      assert s[0] in s;
    }
  }

  lemma {:induction false} TrimRightEnds(cut: char -> bool, s: string)
    ensures var t := TrimRight(cut, s);
      && (forall c :: c in t ==> c in s)
      && (t != "" ==> !cut(t[|t| - 1]) && t[0] == s[0])
      && (t == "" <==> forall c :: c in s ==> cut(c))
      && (s != "" && !cut(s[|s| - 1]) ==> t == s)
      && (s != "" && cut(s[|s| - 1]) ==> |t| < |s|)
  {
    if s != "" && cut(s[|s| - 1]) {
      var init := s[..|s| - 1];
      TrimRightEnds(cut, init);
      TrimShortens(cut, init);
      assert s == init + [s[|s| - 1]];
    } else if s != "" {
      assert s[|s| - 1] in s;
    }
  }

  lemma {:induction false} TrimShortens(cut: char -> bool, s: string)
    ensures |TrimRight(cut, s)| <= |s|
  {
    if s != "" && cut(s[|s| - 1]) {
      TrimShortens(cut, s[..|s| - 1]);
    }
  }

  lemma TrimEnds(cut: char -> bool, s: string)
    ensures var t := Trim(cut, s);
      && (forall c :: c in t ==> c in s)
      && (t != "" ==> !cut(t[0]) && !cut(t[|t| - 1]))
      && (t == "" <==> forall c :: c in s ==> cut(c))
      && (s != "" && !cut(s[0]) && !cut(s[|s| - 1]) ==> t == s)
      && (s != "" && !cut(s[0]) && cut(s[|s| - 1]) ==> |t| < |s|)
  {
    TrimLeftEnds(cut, s);
    var l := TrimLeft(cut, s);
    TrimRightEnds(cut, l);
  }

  predicate AllDots(s: string) {
    forall c :: c in s ==> IsDot(c)
  }

  /** Exactly the names Clean leaves alone. */
  predicate IsClean(isPrint: PrintTable, s: string) {
    s != "" && !AllDots(s) && AllKept(isPrint, s) && !IsSpace(s[0]) && !IsSpace(s[|s| - 1])
  }

  predicate AllKept(isPrint: PrintTable, s: string) {
    forall c :: c in s ==> !IsSeparator(c) && Kept(isPrint, c)
  }

  lemma UnnamedIsClean(isPrint: PrintTable)
    ensures IsClean(isPrint, "unnamed")
  {
    var s := "unnamed";
    assert !IsDot(s[0]) && s[0] in s;
  }

  lemma TrimmedIsClean(isPrint: PrintTable, printable: string)
    requires AllKept(isPrint, printable)
    ensures var trimmed := Trim(IsSpace, printable);
      Trim(IsDot, trimmed) != "" ==> IsClean(isPrint, trimmed)
  {
    TrimEnds(IsSpace, printable);
    TrimEnds(IsDot, Trim(IsSpace, printable));
  }

  lemma CleanIsClean(isPrint: PrintTable, name: string)
    ensures IsClean(isPrint, Clean(isPrint, name))
  {
    LastElementHasNoSeparator(name);
    FilterKeeps(c => Kept(isPrint, c), LastElement(name));
    TrimmedIsClean(isPrint, Filter(c => Kept(isPrint, c), LastElement(name)));
    UnnamedIsClean(isPrint);
  }

  /** A printable name without separators that does not start with a space comes back unchanged
      exactly when it is not all dots and does not end with a space. */
  lemma CleanFixes(isPrint: PrintTable, s: string)
    requires s != "" && !IsSpace(s[0])
    requires AllKept(isPrint, s)
    ensures Clean(isPrint, s) == s <==> IsClean(isPrint, s)
  {
    var keep := c => Kept(isPrint, c);
    LastElementHasNoSeparator(s);
    FilterKeeps(keep, s);
    TrimEnds(IsSpace, s);
    TrimEnds(IsDot, s);
    CleanIsClean(isPrint, s);
  }

  // ----- the byte encoding -----

  /** The code point a UTF-8 sequence stands for. */
  function CodePoint(b: bytes): int {
    if |b| == 1 then b[0] as int
    else if |b| == 2 then (b[0] as int - 0xC0) * 64 + (b[1] as int - 0x80)
    else if |b| == 3 then (b[0] as int - 0xE0) * 4096 + (b[1] as int - 0x80) * 64 + (b[2] as int - 0x80)
    else if |b| == 4 then (b[0] as int - 0xF0) * 262144 + (b[1] as int - 0x80) * 4096 + (b[2] as int - 0x80) * 64
                          + (b[3] as int - 0x80)
    else -1
  }

  lemma Base64Digits(n: nat)
    ensures n / 4096 == n / 64 / 64 && n / 262144 == n / 4096 / 64
  {
  }

  lemma CodePointOfEncoding(c: char)
    ensures CodePoint(EncodeChar(c)) == c as int
  {
    Base64Digits(c as int);
  }

  /** The encoding of a character is not a prefix of that of another. */
  lemma EncodeCharPrefixFree(a: char, b: char, x: bytes, y: bytes)
    requires EncodeChar(a) + x == EncodeChar(b) + y
    ensures a == b && x == y
  {
    var ea, eb := EncodeChar(a), EncodeChar(b);
    var w := ea + x;
    assert w == eb + y;
    assert forall k :: 0 <= k < |ea| ==> w[k] == ea[k];
    assert forall k :: 0 <= k < |eb| ==> w[k] == eb[k];
    assert ea[0] == eb[0];
    assert |ea| == |eb|;
    assert ea == w[..|ea|] == w[..|eb|] == eb;
    CodePointOfEncoding(a);
    CodePointOfEncoding(b);
    assert x == w[|ea|..] && y == w[|eb|..];
  }

  /** A byte prefix that is itself an encoding ends on a character boundary. */
  lemma {:induction false} EncodePrefix(s: string, t: string, rest: bytes)
    requires Encode(s) + rest == Encode(t)
    ensures s <= t
  {
    if s == "" {
    } else {
      var tail := Encode(s[1..]) + rest;
      assert Encode(s) + rest == EncodeChar(s[0]) + tail;
      if t == "" { assert false; }
      EncodeCharPrefixFree(s[0], t[0], tail, Encode(t[1..]));
      EncodePrefix(s[1..], t[1..], rest);
      assert s == [s[0]] + s[1..] && t == [t[0]] + t[1..];
    }
  }

  lemma {:induction false} EncodeMembers(s: string, b: byte)
    requires b < 128
    ensures b in Encode(s) <==> b as char in s
  {
    if s == "" {
    } else {
      EncodeMembers(s[1..], b);
      assert s == [s[0]] + s[1..];
    }
  }

  ghost predicate DotBytes(b: bytes) {
    forall k :: 0 <= k < |b| ==> b[k] == 46
  }

  lemma {:induction false} DotsEncodeToDots(s: string)
    ensures AllDots(s) <==> DotBytes(Encode(s))
  {
    if s == "" {
    } else {
      var e, rest := EncodeChar(s[0]), Encode(s[1..]);
      DotsEncodeToDots(s[1..]);
      assert s == [s[0]] + s[1..];
      assert Encode(s) == e + rest;
      assert e[0] == 46 <==> IsDot(s[0]);
      if DotBytes(e + rest) {
        assert (e + rest)[0] == e[0];
        assert forall k :: 0 <= k < |rest| ==> rest[k] == (e + rest)[|e| + k];
      }
    }
  }

  /** A stored name that is the encoding of some text is a prefix of the cleaned name. */
  lemma CutOnBoundary(s: string, whole: string)
    requires Cut(Encode(whole)) == Encode(s)
    ensures s <= whole
    ensures |Encode(whole)| <= MAX_FILENAME_LEN ==> s == whole
  {
    var rest := Encode(whole)[|Encode(s)|..];
    assert Encode(s) + rest == Encode(whole);
    EncodePrefix(s, whole, rest);
    if |Encode(whole)| <= MAX_FILENAME_LEN {
      assert Encode(whole) + [] == Encode(s);
      EncodePrefix(whole, s, []);
    }
  }

  // ----- the results -----

  /** Whatever the client sends, the stored name is nonempty, short, and names no path. */
  lemma SanitizedIsAName(isPrint: PrintTable, name: string)
    ensures 0 < |Sanitize(isPrint, name)| <= MAX_FILENAME_LEN
    ensures 47 !in Sanitize(isPrint, name) && 92 !in Sanitize(isPrint, name)
  {
    var c := Clean(isPrint, name);
    CleanIsClean(isPrint, name);
    EncodeMembers(c, 47);
    EncodeMembers(c, 92);
  }

  /** All dots come out exactly when the name is too long and starts with 255 of them. */
  lemma AllDotsExactly(isPrint: PrintTable, name: string)
    ensures DotBytes(Sanitize(isPrint, name))
       <==> var e := Encode(Clean(isPrint, name));
            |e| > MAX_FILENAME_LEN && DotBytes(e[..MAX_FILENAME_LEN])
  {
    CleanIsClean(isPrint, name);
    DotsEncodeToDots(Clean(isPrint, name));
  }

  lemma PrefixOfUnnamedIsClean(isPrint: PrintTable, s: string)
    requires s != "" && s <= "unnamed"
    ensures IsClean(isPrint, s)
  {
    UnnamedIsClean(isPrint);
    var u := "unnamed";
    assert forall c :: c in s ==> c in u;
    assert s[0] == u[0] == 'u' && !IsDot('u') && s[0] in s;
    assert s[|s| - 1] == u[|s| - 1];
  }

  lemma SanitizeFixes(isPrint: PrintTable, s: string)
    requires s != "" && !IsSpace(s[0]) && |Encode(s)| <= MAX_FILENAME_LEN
    requires AllKept(isPrint, s)
    ensures Sanitize(isPrint, s) == Encode(s) <==> IsClean(isPrint, s)
  {
    CleanFixes(isPrint, s);
    if Sanitize(isPrint, s) == Encode(s) {
      CutOnBoundary(s, Clean(isPrint, s));
      CleanNotLonger(isPrint, s);
      if Clean(isPrint, s) == "unnamed" {
        PrefixOfUnnamedIsClean(isPrint, s);
      }
    }
  }

  lemma PrefixKeepsCharacters(isPrint: PrintTable, c: string, s: string)
    requires IsClean(isPrint, c) && s != "" && s <= c
    ensures !IsSpace(s[0]) && AllKept(isPrint, s)
  {
    forall x | x in s
      ensures !IsSeparator(x) && Kept(isPrint, x)
    {
      assert x in c;
    }
  }

  lemma CutKeepsCharacters(isPrint: PrintTable, c: string, s: string)
    requires IsClean(isPrint, c) && Cut(Encode(c)) == Encode(s)
    ensures s != "" && |Encode(s)| <= MAX_FILENAME_LEN
    ensures !IsSpace(s[0]) && AllKept(isPrint, s)
    ensures |Encode(c)| <= MAX_FILENAME_LEN ==> s == c
  {
    assert |Encode(c)| >= |c| > 0;
    CutOnBoundary(s, c);
    assert |Encode(s)| > 0;
    PrefixKeepsCharacters(isPrint, c, s);
  }

  /** Cleaning never makes a name longer, except to "unnamed". */
  lemma CleanNotLonger(isPrint: PrintTable, s: string)
    ensures |Clean(isPrint, s)| <= |s| || Clean(isPrint, s) == "unnamed"
  {
    LastNotLonger(s);
    FilterNotLonger(c => Kept(isPrint, c), LastElement(s));
    TrimNotLonger(IsSpace, Filter(c => Kept(isPrint, c), LastElement(s)));
  }

  lemma LastNotLonger(s: string)
    ensures |LastElement(s)| <= |s|
  {
  }

  lemma FilterNotLonger(keep: char -> bool, s: string)
    ensures |Filter(keep, s)| <= |s|
  {
  }

  lemma TrimNotLonger(cut: char -> bool, s: string)
    ensures |Trim(cut, s)| <= |s|
  {
    TrimShortens(cut, TrimLeft(cut, s));
    TrimLeftNotLonger(cut, s);
  }

  lemma TrimLeftNotLonger(cut: char -> bool, s: string)
    ensures |TrimLeft(cut, s)| <= |s|
  {
  }

  lemma {:induction false} LastElementAfter(path: string, separator: char, name: string)
    requires IsSeparator(separator)
    ensures LastElement(path + [separator] + name) == LastElement(name)
  {
    if name == "" {
    } else {
      var whole, init := path + [separator] + name, name[..|name| - 1];
      LastElementAfter(path, separator, init);
      assert whole[..|whole| - 1] == path + [separator] + init;
    }
  }

  /** Whatever path stands before it, only the last element counts. */
  lemma OnlyLastElementCounts(isPrint: PrintTable, path: string, separator: char, name: string)
    requires separator == '/' || separator == '\\'
    ensures LastElement(path + [separator] + name) == LastElement(name)
    ensures Sanitize(isPrint, path + [separator] + name) == Sanitize(isPrint, name)
  {
    LastElementAfter(path, separator, name);
  }

  lemma {:induction false} FilterOneMore(keep: char -> bool, s: string, c: char)
    ensures Filter(keep, s + [c]) == Filter(keep, s) + if keep(c) then [c] else ""
  {
    if s != "" {
      FilterOneMore(keep, s[1..], c);
      assert (s + [c])[1..] == s[1..] + [c];
    } else {
      assert s + [c] == [c];
    }
  }

  lemma {:induction false} DroppedFromElement(keep: char -> bool, a: string, c: char, b: string)
    requires !keep(c) && !IsSeparator(c)
    ensures Filter(keep, LastElement(a + [c] + b)) == Filter(keep, LastElement(a + b))
  {
    if b == "" {
      assert a + [c] + b == a + [c] && a + b == a && (a + [c])[..|a|] == a;
      FilterOneMore(keep, LastElement(a), c);
    } else {
      var init, last := b[..|b| - 1], b[|b| - 1];
      var with, without := a + [c] + b, a + b;
      assert with[..|with| - 1] == a + [c] + init && without[..|without| - 1] == a + init;
      if !IsSeparator(last) {
        DroppedFromElement(keep, a, c, init);
        FilterOneMore(keep, LastElement(a + [c] + init), last);
        FilterOneMore(keep, LastElement(a + init), last);
      }
    }
  }

  /** A control or other unprintable character makes no difference anywhere. */
  lemma UnprintableMakesNoDifference(isPrint: PrintTable, a: string, c: char, b: string)
    requires (c < ' ' || c == '\U{7F}' || !isPrint(c)) && c != '/' && c != '\\'
    ensures Sanitize(isPrint, a + [c] + b) == Sanitize(isPrint, a + b)
  {
    var keep := x => Kept(isPrint, x);
    DroppedFromElement(keep, a, c, b);
  }

  lemma {:induction false} LeftSpacesGo(a: string, s: string)
    requires forall c :: c in a ==> IsSpace(c)
    ensures TrimLeft(IsSpace, a + s) == TrimLeft(IsSpace, s)
  {
    if a == "" {
      assert a + s == s;
    } else {
      assert (a + s)[1..] == a[1..] + s;
      LeftSpacesGo(a[1..], s);
    }
  }

  lemma {:induction false} RightSpacesGo(s: string, b: string)
    requires forall c :: c in b ==> IsSpace(c)
    ensures TrimRight(IsSpace, s + b) == TrimRight(IsSpace, s)
  {
    if b == "" {
      assert s + b == s;
    } else {
      var init := b[..|b| - 1];
      assert (s + b)[..|s + b| - 1] == s + init;
      RightSpacesGo(s, init);
    }
  }

  lemma TrimsToCore(a: string, core: string, b: string)
    requires (forall c :: c in a ==> IsSpace(c)) && (forall c :: c in b ==> IsSpace(c))
    requires core != "" ==> !IsSpace(core[0]) && !IsSpace(core[|core| - 1])
    ensures Trim(IsSpace, a + core + b) == core
  {
    Regroup(a, core, b);
    LeftSpacesGo(a, core + b);
    if core == "" {
      assert core + b == b + "";
      LeftSpacesGo(b, "");
    } else {
      assert (core + b)[0] == core[0];
      RightSpacesGo(core, b);
    }
  }

  lemma DotsTrimAway(core: string)
    ensures Trim(IsDot, core) == "" <==> forall c :: c in core ==> c == '.'
  {
    TrimEnds(IsDot, core);
    assert forall c :: IsDot(c) <==> c == '.';
  }

  /** What becomes of the last element of a path, once its unprintable characters are gone: the outer
      spaces go, and if nothing is left or nothing but dots it is called "unnamed". */
  lemma CleanExactly(isPrint: PrintTable, a: string, core: string, b: string)
    requires (forall c :: c in a ==> IsSpace(c)) && (forall c :: c in b ==> IsSpace(c))
    requires core != "" ==> !IsSpace(core[0]) && !IsSpace(core[|core| - 1])
    requires forall c :: c in a + core + b ==> c >= ' ' && c != '\U{7F}' && isPrint(c) && c != '/' && c != '\\'
    ensures Clean(isPrint, a + core + b) == if forall c :: c in core ==> c == '.' then "unnamed" else core
  {
    var s := a + core + b;
    LastElementHasNoSeparator(s);
    FilterKeeps(c => Kept(isPrint, c), s);
    TrimsToCore(a, core, b);
    DotsTrimAway(core);
  }

  // ----- where the cut falls -----

  /** How many whole characters fit in `n` bytes. */
  function Whole(s: string, n: nat): (k: nat)
    ensures k <= |s|
  {
    if s == "" || |EncodeChar(s[0])| > n then 0 else 1 + Whole(s[1..], n - |EncodeChar(s[0])|)
  }

  lemma TakePast(a: bytes, b: bytes, n: nat)
    requires n <= |b|
    ensures (a + b)[..|a| + n] == a + b[..n]
  {
  }

  lemma SameStart(a: bytes, x: bytes, y: bytes)
    ensures a + x == a + y <==> x == y
  {
    assert (a + x)[|a|..] == x && (a + y)[|a|..] == y;
  }

  lemma {:induction false} EncodeAppend(s: string, t: string)
    ensures Encode(s + t) == Encode(s) + Encode(t)
  {
    if s == "" {
      assert s + t == t;
    } else {
      var u := s + t;
      assert u[0] == s[0] && u[1..] == s[1..] + t;
      EncodeAppend(s[1..], t);
      Regroup(EncodeChar(s[0]), Encode(s[1..]), Encode(t));
    }
  }

  lemma EncodeHead(s: string, k: nat)
    requires k < |s|
    ensures Encode(s[..k + 1]) == EncodeChar(s[0]) + Encode(s[1..][..k])
  {
    assert s[..k + 1][1..] == s[1..][..k];
  }

  /** The bytes of the characters before `k`, and `r` more. */
  predicate CutsAt(s: string, n: nat, k: nat) {
    && k < |s| && |Encode(s[..k])| <= n < |Encode(s[..k])| + |EncodeChar(s[k])|
    && n <= |Encode(s)| && Encode(s)[..n] == Encode(s[..k]) + EncodeChar(s[k])[..n - |Encode(s[..k])|]
  }

  lemma CutsOneLater(s: string, n: nat, size: nat, k: nat)
    requires s != "" && size == |EncodeChar(s[0])| <= n && CutsAt(s[1..], n - size, k)
    ensures CutsAt(s, n, k + 1)
  {
    var e, t := EncodeChar(s[0]), s[1..];
    EncodeHead(s, k);
    assert s[k + 1] == t[k];
    var part := EncodeChar(t[k])[..n - size - |Encode(t[..k])|];
    TakePast(e, Encode(t), n - size);
    Regroup(e, Encode(t[..k]), part);
  }

  lemma WholeOneMore(s: string, n: nat, size: nat)
    requires s != "" && size == |EncodeChar(s[0])| <= n
    ensures Whole(s, n) == Whole(s[1..], n - size) + 1
  {
  }

  lemma TakeWithin(a: bytes, b: bytes, n: nat)
    requires n <= |a|
    ensures (a + b)[..n] == a[..n]
  {
  }

  ghost predicate Shaped(s: string, n: nat) {
    CutsAt(s, n, Whole(s, n))
  }

  lemma ShapedInFirst(s: string, n: nat)
    requires s != "" && n < |EncodeChar(s[0])|
    ensures Shaped(s, n)
  {
    var e, rest := EncodeChar(s[0]), Encode(s[1..]);
    TakeWithin(e, rest, n);
    assert s[..0] == "" && Encode("") == [];
    Regroup([], [], e[..n]);
  }

  lemma ShapedLater(s: string, n: nat, size: nat)
    requires s != "" && size == |EncodeChar(s[0])| <= n && Shaped(s[1..], n - size)
    ensures Shaped(s, n)
  {
    var k := Whole(s[1..], n - size);
    CutsOneLater(s, n, size, k);
    WholeOneMore(s, n, size);
  }

  lemma {:induction false} EveryCutShaped(s: string, n: nat)
    requires |Encode(s)| > n
    ensures Shaped(s, n)
  {
    if n < |EncodeChar(s[0])| {
      ShapedInFirst(s, n);
    } else {
      EveryCutShaped(s[1..], n - |EncodeChar(s[0])|);
      ShapedLater(s, n, |EncodeChar(s[0])|);
    }
  }

  /** The first `n` bytes are the whole characters that fit, and the start of the next. */
  lemma CutShape(s: string, n: nat)
    requires |Encode(s)| > n
    ensures CutsAt(s, n, Whole(s, n))
  {
    EveryCutShaped(s, n);
  }

  /** Some character boundary of `c` is exactly at byte `n`. */
  ghost predicate BoundaryAt(c: string, n: nat) {
    exists k :: 0 <= k <= |c| && |Encode(c[..k])| == n
  }

  lemma PrefixEncodes(c: string, k: nat)
    requires k <= |c|
    ensures |Encode(c[..k])| <= |Encode(c)| && Encode(c)[..|Encode(c[..k])|] == Encode(c[..k])
  {
    var x, y := c[..k], c[k..];
    assert c == x + y;
    EncodeAppend(x, y);
  }

  /** The stored name is still text exactly when nothing was cut or the cut fell between two
      characters. */
  lemma TextExactly(isPrint: PrintTable, name: string)
    ensures var c := Clean(isPrint, name);
      (exists s :: Sanitize(isPrint, name) == Encode(s))
      <==> |Encode(c)| <= MAX_FILENAME_LEN || BoundaryAt(c, MAX_FILENAME_LEN)
  {
    var c := Clean(isPrint, name);
    if |Encode(c)| > MAX_FILENAME_LEN {
      forall s | Cut(Encode(c)) == Encode(s)
        ensures BoundaryAt(c, MAX_FILENAME_LEN)
      {
        TextEndsOnBoundary(c, s);
      }
      if BoundaryAt(c, MAX_FILENAME_LEN) {
        var s := TextUpTo(c);
        assert Sanitize(isPrint, name) == Encode(s);
      }
    } else {
      assert Sanitize(isPrint, name) == Encode(c);
    }
  }

  lemma TextEndsOnBoundary(c: string, s: string)
    requires |Encode(c)| > MAX_FILENAME_LEN && Cut(Encode(c)) == Encode(s)
    ensures BoundaryAt(c, MAX_FILENAME_LEN)
  {
    CutOnBoundary(s, c);
    assert s == c[..|s|];
  }

  lemma TextUpTo(c: string) returns (s: string)
    requires |Encode(c)| > MAX_FILENAME_LEN && BoundaryAt(c, MAX_FILENAME_LEN)
    ensures Cut(Encode(c)) == Encode(s)
  {
    var k :| 0 <= k <= |c| && |Encode(c[..k])| == MAX_FILENAME_LEN;
    PrefixEncodes(c, k);
    s := c[..k];
  }

  // ----- reading stored bytes back -----

  ghost predicate StartsWith(b: bytes, c: char) {
    EncodeChar(c) <= b
  }

  /** The name as the next pass sees it: each byte that starts no character is U+FFFD. */
  ghost function Decode(b: bytes): string
    decreases |b|
  {
    if b == [] then ""
    else if exists c :: StartsWith(b, c) then
      var c :| StartsWith(b, c);
      [c] + Decode(b[|EncodeChar(c)|..])
    else [REPLACEMENT] + Decode(b[1..])
  }

  lemma OneStart(b: bytes, c: char, d: char)
    requires StartsWith(b, c) && StartsWith(b, d)
    ensures c == d
  {
    var x, y := b[|EncodeChar(c)|..], b[|EncodeChar(d)|..];
    assert EncodeChar(c) + x == b == EncodeChar(d) + y;
    EncodeCharPrefixFree(c, d, x, y);
  }

  lemma DecodeWhole(c: char, rest: bytes)
    ensures Decode(EncodeChar(c) + rest) == [c] + Decode(rest)
  {
    var b := EncodeChar(c) + rest;
    assert StartsWith(b, c);
    forall d | StartsWith(b, d) ensures d == c { OneStart(b, c, d); }
    assert b[|EncodeChar(c)|..] == rest;
  }

  lemma {:induction false} DecodeText(s: string, rest: bytes)
    ensures Decode(Encode(s) + rest) == s + Decode(rest)
  {
    if s == "" {
      assert Encode(s) + rest == rest && s + Decode(rest) == Decode(rest);
    } else {
      var tail := Encode(s[1..]) + rest;
      assert Encode(s) + rest == EncodeChar(s[0]) + tail;
      DecodeText(s[1..], rest);
      DecodeWhole(s[0], tail);
      PutBack(s, Decode(rest));
    }
  }

  lemma PutBack(s: string, t: string)
    requires s != ""
    ensures [s[0]] + (s[1..] + t) == s + t
  {
  }

  /** No character starts with a continuation byte. */
  predicate Continuation(b: byte) {
    0x80 <= b < 0xC0
  }

  lemma LeadAndTail(c: char)
    ensures !Continuation(EncodeChar(c)[0])
    ensures forall k :: 1 <= k < |EncodeChar(c)| ==> Continuation(EncodeChar(c)[k])
  {
  }

  lemma {:induction false} DecodeTail(b: bytes)
    requires forall k :: 0 <= k < |b| ==> Continuation(b[k])
    ensures Decode(b) == Repeat(REPLACEMENT, |b|)
  {
    if b == [] {
    } else {
      forall c ensures !StartsWith(b, c) { LeadAndTail(c); }
      DecodeTail(b[1..]);
      assert Repeat(REPLACEMENT, |b|) == [REPLACEMENT] + Repeat(REPLACEMENT, |b| - 1);
    }
  }

  /** The start of a character, without its end, decodes to one U+FFFD a byte. */
  lemma DecodePart(c: char, r: nat)
    requires r < |EncodeChar(c)|
    ensures Decode(EncodeChar(c)[..r]) == Repeat(REPLACEMENT, r)
  {
    var b := EncodeChar(c)[..r];
    if r > 0 {
      forall d
        ensures !StartsWith(b, d)
      {
        if StartsWith(b, d) {
          assert StartsWith(EncodeChar(c), d) && StartsWith(EncodeChar(c), c);
          OneStart(EncodeChar(c), c, d);
        }
      }
      LeadAndTail(c);
      DecodeTail(b[1..]);
      assert Repeat(REPLACEMENT, r) == [REPLACEMENT] + Repeat(REPLACEMENT, r - 1);
    }
  }

  /** Sanitizing a stored name again, when it is text `s`. */
  lemma TextAgain(isPrint: PrintTable, name: string, s: string)
    requires Sanitize(isPrint, name) == Encode(s)
    ensures s != ""
    ensures Sanitize(isPrint, s) == Encode(s)
       <==> |Encode(Clean(isPrint, name))| <= MAX_FILENAME_LEN || (!AllDots(s) && !IsSpace(s[|s| - 1]))
  {
    CleanIsClean(isPrint, name);
    CutKeepsCharacters(isPrint, Clean(isPrint, name), s);
    SanitizeFixes(isPrint, s);
  }

  lemma {:induction false} EncodeRepeat(r: nat)
    ensures |Encode(Repeat(REPLACEMENT, r))| == 3 * r
    ensures 0 < r <= 3 ==> Encode(Repeat(REPLACEMENT, r))[..r] == EncodeChar(REPLACEMENT)[..r]
  {
    if r == 0 {
    } else {
      EncodeRepeat(r - 1);
      assert Repeat(REPLACEMENT, r)[1..] == Repeat(REPLACEMENT, r - 1);
    }
  }

  /** A cleaned text followed by replacement characters is clean. */
  lemma ReplacedIsClean(isPrint: PrintTable, c: string, k: nat, r: nat)
    requires IsClean(isPrint, c) && 0 < k <= |c| && 0 < r
    ensures IsClean(isPrint, c[..k] + Repeat(REPLACEMENT, r))
  {
    var t := c[..k] + Repeat(REPLACEMENT, r);
    PrefixKeepsCharacters(isPrint, c, c[..k]);
    forall x | x in t
      ensures !IsSeparator(x) && Kept(isPrint, x)
    {
      if x in c[..k] { } else { assert x == REPLACEMENT; }
    }
    assert t[|t| - 1] == REPLACEMENT && t[|t| - 1] in t && !IsDot(REPLACEMENT);
    assert t[0] == c[0];
  }

  /** A second pass over a name cut inside character `k`, of which `r` bytes are left: the same
      bytes exactly when they are how U+FFFD starts. */
  lemma SplitAgain(isPrint: PrintTable, c: string, k: nat, r: nat)
    requires IsClean(isPrint, c) && 0 < k < |c| && 0 < r < |EncodeChar(c[k])|
    requires |Encode(c[..k])| + r == MAX_FILENAME_LEN
    ensures var stored := Encode(c[..k]) + EncodeChar(c[k])[..r];
      Sanitize(isPrint, Decode(stored)) == stored <==> EncodeChar(c[k])[..r] == EncodeChar(REPLACEMENT)[..r]
  {
    var part := EncodeChar(c[k])[..r];
    var stored := Encode(c[..k]) + part;
    DecodeText(c[..k], part);
    DecodePart(c[k], r);
    var t := c[..k] + Repeat(REPLACEMENT, r);
    assert Decode(stored) == t;
    ReplacedIsClean(isPrint, c, k, r);
    CleanFixes(isPrint, t);
    CutReplaced(c[..k], r);
    SameStart(Encode(c[..k]), EncodeChar(REPLACEMENT)[..r], part);
  }

  lemma CutReplaced(s: string, r: nat)
    requires 0 < r <= 3 && |Encode(s)| + r == MAX_FILENAME_LEN
    ensures Cut(Encode(s + Repeat(REPLACEMENT, r))) == Encode(s) + EncodeChar(REPLACEMENT)[..r]
  {
    EncodeAppend(s, Repeat(REPLACEMENT, r));
    EncodeRepeat(r);
    TakePast(Encode(s), Encode(Repeat(REPLACEMENT, r)), r);
  }

  /** A second pass keeps the stored bytes: nothing was cut; or the cut fell between two characters
      and left neither a trailing space nor only dots; or it fell inside a character that starts
      like U+FFFD. */
  ghost predicate Keeps(c: string) {
    || |Encode(c)| <= MAX_FILENAME_LEN
    || var k := Whole(c, MAX_FILENAME_LEN);
       var r := MAX_FILENAME_LEN - |Encode(c[..k])|;
       && 0 < k < |c| && r >= 0
       && if r == 0 then !AllDots(c[..k]) && !IsSpace(c[k - 1])
          else r < |EncodeChar(c[k])| && EncodeChar(c[k])[..r] == EncodeChar(REPLACEMENT)[..r]
  }

  /** Sanitizing any stored name again leaves it as it is exactly then. */
  lemma IdempotentExactly(isPrint: PrintTable, name: string)
    ensures var stored := Sanitize(isPrint, name);
      Sanitize(isPrint, Decode(stored)) == stored <==> Keeps(Clean(isPrint, name))
  {
    var c := Clean(isPrint, name);
    var stored := Sanitize(isPrint, name);
    CleanIsClean(isPrint, name);
    if |Encode(c)| <= MAX_FILENAME_LEN {
      DecodeText(c, []);
      assert stored + [] == stored && c + "" == c;
      TextAgain(isPrint, name, c);
    } else {
      CutShape(c, MAX_FILENAME_LEN);
      var k := Whole(c, MAX_FILENAME_LEN);
      var r := MAX_FILENAME_LEN - |Encode(c[..k])|;
      SomeWhole(c);
      if r == 0 {
        DecodeText(c[..k], []);
        assert stored == Encode(c[..k]) + [] == Encode(c[..k]) && c[..k] + "" == c[..k];
        TextAgain(isPrint, name, c[..k]);
      } else {
        SplitAgain(isPrint, c, k, r);
      }
    }
  }

  lemma SomeWhole(c: string)
    requires |Encode(c)| > MAX_FILENAME_LEN
    ensures Whole(c, MAX_FILENAME_LEN) > 0
  {
  }

  // ----- what the cut can leave: three names that are clean before it -----

  function Repeat(c: char, n: nat): (s: string)
    ensures |s| == n && forall k :: 0 <= k < n ==> s[k] == c
  {
    seq(n, _ => c)
  }

  lemma {:induction false} NonAsciiIsLonger(s: string, k: nat)
    requires k < |s| && s[k] as int >= 128
    ensures |Encode(s)| > |s|
  {
    if k == 0 {
    } else {
      NonAsciiIsLonger(s[1..], k - 1);
    }
  }

  lemma {:induction false} EncodeAscii(s: string)
    requires forall k :: 0 <= k < |s| ==> s[k] as int < 128
    ensures |Encode(s)| == |s|
    ensures forall k :: 0 <= k < |s| ==> Encode(s)[k] == s[k] as byte
  {
    if s == "" {
    } else {
      EncodeAscii(s[1..]);
    }
  }

  /** 255 dots and a letter are cut to 255 dots. */
  lemma CutCanLeaveOnlyDots(isPrint: PrintTable)
    ensures DotBytes(Sanitize(isPrint, Repeat('.', 255) + "a"))
  {
    var s := Repeat('.', 255) + "a";
    assert s[255] == 'a' && s[255] in s && !IsDot('a');
    assert forall c :: c in s ==> c == '.' || c == 'a';
    assert IsClean(isPrint, s);
    CleanFixes(isPrint, s);
    EncodeAscii(s);
  }

  lemma SpacedNameIsClean(isPrint: PrintTable, t: string)
    requires t == Repeat('a', 254) + " b"
    ensures IsClean(isPrint, t)
  {
    assert forall c :: c in t ==> c == 'a' || c == ' ' || c == 'b';
    assert t[0] == 'a' && t[0] in t && !IsDot('a') && t[255] == 'b';
  }

  lemma CutAtSpace(isPrint: PrintTable, s: string, t: string)
    requires |s| == MAX_FILENAME_LEN && s[254] == ' ' && t == s + "b" && IsClean(isPrint, t)
    requires |Encode(s)| == |s| && |Encode(t)| == |t|
    ensures Sanitize(isPrint, t) == Encode(s) != Sanitize(isPrint, s)
  {
    CleanFixes(isPrint, t);
    EncodeAppend(s, "b");
    TakeWithin(Encode(s), Encode("b"), |s|);
    assert Encode(s)[..|s|] == Encode(s);
    CutKeepsCharacters(isPrint, t, s);
    SanitizeFixes(isPrint, s);
  }

  /** A space in the last place kept stays, and a second pass removes it. */
  lemma CutCanLeaveASpace(isPrint: PrintTable)
    ensures var s := Repeat('a', 254) + " ";
      Sanitize(isPrint, s + "b") == Encode(s) != Sanitize(isPrint, s)
  {
    var a := Repeat('a', 254);
    var s := a + " ";
    var t := s + "b";
    assert t == a + " b";
    SpacedNameIsClean(isPrint, t);
    EncodeAscii(s);
    EncodeAscii(t);
    CutAtSpace(isPrint, s, t);
  }

  lemma SplitNameIsClean(isPrint: PrintTable, t: string)
    requires isPrint('\U{E9}') && t == Repeat('a', 254) + "\U{E9}"
    ensures Clean(isPrint, t) == t && |Encode(t)| > MAX_FILENAME_LEN
  {
    assert forall c :: c in t ==> c == 'a' || c == '\U{E9}';
    assert t[0] == 'a' && t[0] in t && !IsDot('a') && t[254] == '\U{E9}';
    assert IsClean(isPrint, t);
    CleanFixes(isPrint, t);
    NonAsciiIsLonger(t, 254);
  }

  /** A two-byte character across the boundary is split: no text has the stored bytes. */
  lemma CutCanSplitACharacter(isPrint: PrintTable, text: string)
    requires isPrint('\U{E9}')
    ensures Sanitize(isPrint, Repeat('a', 254) + "\U{E9}") != Encode(text)
  {
    var t := Repeat('a', 254) + "\U{E9}";
    SplitNameIsClean(isPrint, t);
    if Cut(Encode(t)) == Encode(text) {
      CutOnBoundary(text, t);
      if text == t { assert false; }
      assert forall k :: 0 <= k < |text| ==> text[k] == 'a';
      EncodeAscii(text);
    }
  }

  lemma WideNameIsClean(isPrint: PrintTable, t: string)
    requires isPrint('\U{FF01}') && t == Repeat('a', 254) + "\U{FF01}"
    ensures IsClean(isPrint, t)
  {
    assert forall c :: c in t ==> c == 'a' || c == '\U{FF01}';
    assert t[0] == 'a' && t[0] in t && !IsDot('a') && t[254] == '\U{FF01}';
  }

  /** Text does not end inside a character. */
  lemma NoPartAtTheEnd(s: string, c: char, r: nat, text: string)
    requires 0 < r < |EncodeChar(c)|
    ensures Encode(s) + EncodeChar(c)[..r] != Encode(text)
  {
    var part := EncodeChar(c)[..r];
    DecodeText(text, []);
    assert Encode(text) + [] == Encode(text) && text + "" == text;
    DecodeText(s, part);
    DecodePart(c, r);
    EncodeAppend(s, Repeat(REPLACEMENT, r));
    EncodeRepeat(r);
    assert |Encode(s) + part| == |Encode(s)| + r;
  }

  lemma WideBytes()
    ensures EncodeChar('\U{FF01}') == [0xEF, 0xBC, 0x81] && EncodeChar(REPLACEMENT) == [0xEF, 0xBF, 0xBD]
  {
  }

  lemma WideStart()
    ensures |EncodeChar('\U{FF01}')| > 1 && EncodeChar('\U{FF01}')[..1] == EncodeChar(REPLACEMENT)[..1]
  {
    WideBytes();
  }

  lemma WideStored(isPrint: PrintTable, a: string)
    requires isPrint('\U{FF01}') && a == Repeat('a', 254)
    ensures IsClean(isPrint, a + "\U{FF01}") && |Encode(a)| == 254
    ensures Sanitize(isPrint, a + "\U{FF01}") == Encode(a) + EncodeChar('\U{FF01}')[..1]
  {
    var wide := "\U{FF01}";
    WideNameIsClean(isPrint, a + wide);
    CleanFixes(isPrint, a + wide);
    EncodeAscii(a);
    EncodeAppend(a, wide);
    WideBytes();
    assert Encode(wide[1..]) == [] && Encode(wide) == EncodeChar(wide[0]) + [];
    TakePast(Encode(a), Encode(wide), 1);
  }

  /** A split character need not show: one byte of a fullwidth exclamation mark is how U+FFFD
      starts, so a second pass leaves it there. */
  lemma SplitCanBeKept(isPrint: PrintTable, text: string)
    requires isPrint('\U{FF01}')
    ensures var stored := Sanitize(isPrint, Repeat('a', 254) + "\U{FF01}");
      Sanitize(isPrint, Decode(stored)) == stored != Encode(text)
  {
    var a := Repeat('a', 254);
    WideStored(isPrint, a);
    WideStart();
    SplitLast(isPrint, a, '\U{FF01}', text);
  }

  lemma SplitLast(isPrint: PrintTable, a: string, c: char, text: string)
    requires IsClean(isPrint, a + [c]) && |a| == |Encode(a)| == 254 && |EncodeChar(c)| > 1
    requires EncodeChar(c)[..1] == EncodeChar(REPLACEMENT)[..1]
    ensures var stored := Encode(a) + EncodeChar(c)[..1];
      Sanitize(isPrint, Decode(stored)) == stored != Encode(text)
  {
    var t := a + [c];
    assert t[..254] == a && t[254] == c;
    SplitAgain(isPrint, t, 254, 1);
    NoPartAtTheEnd(a, c, 1, text);
  }
}
