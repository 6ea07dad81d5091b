/** normalizeInviteCode of internal/auth/registration.go: a code however a human re-types it. */
module InviteCode {
  import opened Prelude
  import opened Filename

  /** unicode.ToUpper, of which only ASCII is fixed here. */
  type UpperTable = u: char -> char | (forall c :: c <= '~' ==> u(c) == AsciiUpper(c)) witness AsciiUpper

  function AsciiUpper(c: char): char {
    if 'a' <= c <= 'z' then c - 32 as char else c
  }

  /** The alphabet of base32 (section 6 of RFC 4648), without padding. */
  predicate IsCode(code: string) {
    forall k :: 0 <= k < |code| ==> 'A' <= code[k] <= 'Z' || '2' <= code[k] <= '7'
  }

  function Map(f: char -> char, s: string): string {
    if s == "" then "" else [f(s[0])] + Map(f, s[1..])
  }

  predicate Wanted(c: char) {
    c != ' ' && c != '-'
  }

  function Normalize(upper: UpperTable, code: string): string {
    Filter(Wanted, Map(upper, Trim(IsSpace, code)))
  }

  /** A small letter stands for its capital, anything else for itself. */
  predicate StandsFor(typed: char, c: char) {
    if 'a' <= typed <= 'z' then typed as int - 'a' as int == c as int - 'A' as int else typed == c
  }

  /** `typed` is `code` with letters in any case, and spaces and dashes anywhere. */
  predicate Retyped(code: string, typed: string) {
    if typed == "" then code == ""
    else
      || ((typed[0] == ' ' || typed[0] == '-') && Retyped(code, typed[1..]))
      || (code != "" && StandsFor(typed[0], code[0]) && typed[0] <= '~' && Retyped(code[1..], typed[1..]))
  }

  predicate OnlySpaces(s: string) {
    forall k :: 0 <= k < |s| && IsSpace(s[k]) ==> s[k] == ' '
  }

  lemma {:induction false} RetypedHasOnlySpaces(code: string, typed: string)
    requires IsCode(code) && Retyped(code, typed)
    ensures OnlySpaces(typed)
  {
    if typed == "" {
    } else {
      if !Wanted(typed[0]) && Retyped(code, typed[1..]) {
        RetypedHasOnlySpaces(code, typed[1..]);
      } else {
        RetypedHasOnlySpaces(code[1..], typed[1..]);
        assert !IsSpace(typed[0]);
      }
      assert forall k :: 1 <= k < |typed| ==> typed[k] == typed[1..][k - 1];
    }
  }

  lemma {:induction false} FilterMapAppend(upper: UpperTable, s: string, c: char)
    ensures Filter(Wanted, Map(upper, s + [c]))
         == Filter(Wanted, Map(upper, s)) + if Wanted(upper(c)) then [upper(c)] else []
  {
    if s == "" {
      assert s + [c] == [c];
      assert Map(upper, [c]) == [upper(c)];
    } else {
      FilterMapAppend(upper, s[1..], c);
      assert (s + [c])[1..] == s[1..] + [c];
    }
  }

  lemma SpaceDropped(upper: UpperTable, rest: string)
    ensures Filter(Wanted, Map(upper, [' '] + rest)) == Filter(Wanted, Map(upper, rest))
  {
    var m := Map(upper, [' '] + rest);
    assert m[1..] == Map(upper, rest);
  }

  /** The outer spaces would be removed with the inner ones. */
  lemma {:induction false} LeftTrimmed(upper: UpperTable, s: string)
    requires OnlySpaces(s)
    ensures Filter(Wanted, Map(upper, TrimLeft(IsSpace, s))) == Filter(Wanted, Map(upper, s))
    ensures OnlySpaces(TrimLeft(IsSpace, s))
  {
    if s != "" && IsSpace(s[0]) {
      var rest := s[1..];
      LeftTrimmed(upper, rest);
      assert s == [' '] + rest;
      SpaceDropped(upper, rest);
    }
  }

  lemma {:induction false} RightTrimmed(upper: UpperTable, s: string)
    requires OnlySpaces(s)
    ensures Filter(Wanted, Map(upper, TrimRight(IsSpace, s))) == Filter(Wanted, Map(upper, s))
  {
    if s != "" && IsSpace(s[|s| - 1]) {
      RightTrimmed(upper, s[..|s| - 1]);
      FilterMapAppend(upper, s[..|s| - 1], ' ');
      assert s == s[..|s| - 1] + [' '];
    }
  }

  lemma StandsForUpper(upper: UpperTable, typed: char, c: char)
    requires StandsFor(typed, c) && typed <= '~' && ('A' <= c <= 'Z' || '2' <= c <= '7')
    ensures upper(typed) == c && Wanted(typed) && Wanted(c)
  {
    assert upper(typed) == AsciiUpper(typed);
  }

  lemma {:induction false} Recovered(upper: UpperTable, code: string, typed: string)
    requires Retyped(code, typed) && IsCode(code)
    ensures Filter(Wanted, Map(upper, typed)) == code
  {
    if typed == "" {
    } else {
      assert Map(upper, typed)[1..] == Map(upper, typed[1..]);
      if !Wanted(typed[0]) && Retyped(code, typed[1..]) {
        Recovered(upper, code, typed[1..]);
        assert upper(typed[0]) == typed[0];
      } else {
        var rest := code[1..];
        StandsForUpper(upper, typed[0], code[0]);
        Recovered(upper, rest, typed[1..]);
        assert code == [code[0]] + rest;
      }
    }
  }

  lemma {:induction false} OnlyRetypings(upper: UpperTable, code: string, typed: string)
    requires forall k :: 0 <= k < |typed| ==> typed[k] <= '~'
    requires Filter(Wanted, Map(upper, typed)) == code
    ensures Retyped(code, typed)
    decreases |typed|
  {
    if typed == "" {
    } else {
      var m := Map(upper, typed);
      assert m[1..] == Map(upper, typed[1..]) && m[0] == upper(typed[0]) == AsciiUpper(typed[0]);
      var rest := Filter(Wanted, Map(upper, typed[1..]));
      OnlyRetypings(upper, rest, typed[1..]);
      if Wanted(typed[0]) {
        assert Wanted(m[0]) && code == [m[0]] + rest;
        assert code[1..] == rest;
      } else {
        assert !Wanted(m[0]) && code == rest;
      }
    }
  }

  /** Every re-typing of an issued code normalizes to that code, so it has the same hash. */
  lemma RetypedCodeIsRecovered(upper: UpperTable, code: string, typed: string)
    requires IsCode(code) && Retyped(code, typed)
    ensures Normalize(upper, typed) == code
  {
    RetypedHasOnlySpaces(code, typed);
    LeftTrimmed(upper, typed);
    RightTrimmed(upper, TrimLeft(IsSpace, typed));
    Recovered(upper, code, typed);
  }

  /** And among printable ASCII texts nothing else does. */
  lemma NothingElseIsAccepted(upper: UpperTable, code: string, typed: string)
    requires IsCode(code) && forall k :: 0 <= k < |typed| ==> ' ' <= typed[k] <= '~'
    ensures Normalize(upper, typed) == code <==> Retyped(code, typed)
  {
    if Retyped(code, typed) {
      RetypedCodeIsRecovered(upper, code, typed);
    } else {
      LeftTrimmed(upper, typed);
      RightTrimmed(upper, TrimLeft(IsSpace, typed));
      if Filter(Wanted, Map(upper, typed)) == code { OnlyRetypings(upper, code, typed); }
    }
  }
}
