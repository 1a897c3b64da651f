/** The C string functions that the firmware calls, on byte sequences read as NUL-terminated strings. */
module CStrings {
  import opened Bytes

  /** A character of a C string; from the end of `s` on there is its NUL. */
  function At(s: seq<byte>, i: nat): byte {
    if i < |s| then s[i] else 0
  }

  function Lower(b: byte): byte {
    if 65 <= b <= 90 then b + 32 else b
  }

  /** Two bytes are the same up to case if and only if they are the same, or a letter A-Z and its a-z. */
  lemma SameUpToCase(a: byte, b: byte)
    ensures Lower(a) == Lower(b) <==> a == b || (65 <= a <= 90 && b == a + 32) || (65 <= b <= 90 && a == b + 32)
  {
  }

  /** strncasecmp(a, b, n) == 0 */
  predicate StrNCaseEq(a: seq<byte>, b: seq<byte>, n: nat) {
    StrNCaseEqFrom(a, b, n, 0)
  }

  predicate StrNCaseEqFrom(a: seq<byte>, b: seq<byte>, n: nat, i: nat)
    decreases n - i
  {
    i >= n || (Lower(At(a, i)) == Lower(At(b, i)) && (At(a, i) == 0 || StrNCaseEqFrom(a, b, n, i + 1)))
  }

  /** Equality up to the case of ASCII letters. */
  predicate CaseEq(a: seq<byte>, b: seq<byte>) {
    |a| == |b| && forall i :: 0 <= i < |a| ==> Lower(a[i]) == Lower(b[i])
  }

  lemma {:induction false} StrNCaseEqFromIs(a: seq<byte>, b: seq<byte>, i: nat)
    requires i <= |b| && NulFree(b)
    ensures StrNCaseEqFrom(a, b, |b|, i)
       <==> (i == |b| || |b| <= |a|) && forall j :: i <= j < |b| && j < |a| ==> Lower(a[j]) == Lower(b[j])
    decreases |b| - i
  {
    if i < |b| {
      assert Lower(b[i]) != 0;
      StrNCaseEqFromIs(a, b, i + 1);
    }
  }

  /** strncasecmp with all of a string without NULs tests for a beginning, up to case. */
  lemma StrNCaseEqIsBeginning(a: seq<byte>, b: seq<byte>)
    requires NulFree(b)
    ensures StrNCaseEq(a, b, |b|) <==> |b| <= |a| && CaseEq(a[..|b|], b)
  {
    StrNCaseEqFromIs(a, b, 0);
  }

  /** strchr(mem + i, c): the search ends at a NUL, or with the memory. */
  function StrChr(mem: seq<byte>, i: nat, c: byte): (r: Option<nat>)
    ensures r.Some? ==> i <= r.value < |mem| && mem[r.value] == c
    decreases |mem| - i
  {
    if i >= |mem| then None
    else if mem[i] == c then Some(i)
    else if mem[i] == 0 then None
    else StrChr(mem, i + 1, c)
  }

  lemma {:induction false} StrChrFinds(mem: seq<byte>, i: nat, c: byte, p: nat)
    requires i <= p < |mem| && mem[p] == c && forall j :: i <= j < p ==> mem[j] != c && mem[j] != 0
    ensures StrChr(mem, i, c) == Some(p)
    decreases p - i
  {
    if i < p {
      StrChrFinds(mem, i + 1, c, p);
    }
  }

  /** atoi, without its overflow. */
  function Atoi(s: seq<byte>): int {
    var c := At(s, 0);
    if c == 32 || 9 <= c <= 13 then (if s == [] then 0 else Atoi(s[1..]))
    else if c == 45 then (var d: int := Digits(s[1..], 0); -d)
    else if c == 43 then Digits(s[1..], 0)
    else Digits(s, 0)
  }

  function Digits(s: seq<byte>, sum: nat): nat
    decreases |s|
  {
    if s == [] || !(48 <= s[0] <= 57) then sum else Digits(s[1..], 10 * sum + s[0] - 48)
  }

  /** A number in decimal digits. */
  function Decimal(n: nat): (digits: seq<byte>)
    ensures digits != [] && forall i :: 0 <= i < |digits| ==> 48 <= digits[i] <= 57
  {
    if n < 10 then [48 + n] else Decimal(n / 10) + [48 + n % 10]
  }

  lemma {:induction false} DigitsOneMore(s: seq<byte>, last: byte, rest: seq<byte>, sum: nat)
    requires (forall i :: 0 <= i < |s| ==> 48 <= s[i] <= 57) && 48 <= last <= 57
    requires rest == [] || !(48 <= rest[0] <= 57)
    ensures Digits(s + [last] + rest, sum) == 10 * Digits(s, sum) + (last - 48)
    decreases |s|
  {
    var all := s + [last] + rest;
    if s == [] {
      assert all[0] == last && all[1..] == rest;
    } else {
      assert all[0] == s[0] && all[1..] == s[1..] + [last] + rest;
      DigitsOneMore(s[1..], last, rest, 10 * sum + s[0] - 48);
    }
  }

  /** atoi reads every number back from its decimal digits, up to the first byte that is no digit. */
  lemma {:induction false} AtoiOfDecimal(n: nat, rest: seq<byte>)
    requires rest == [] || !(48 <= rest[0] <= 57)
    ensures Digits(Decimal(n) + rest, 0) == n
    ensures Atoi(Decimal(n) + rest) == n
    decreases n
  {
    var s := Decimal(n) + rest;
    assert s[0] == Decimal(n)[0];
    if n < 10 {
      assert s[1..] == rest;
    } else {
      AtoiOfDecimal(n / 10, []);
      assert Decimal(n / 10) + [] == Decimal(n / 10);
      DigitsOneMore(Decimal(n / 10), 48 + n % 10, rest, 0);
    }
  }

  /** It skips white space, takes a sign, and gives 0 for anything that is no number. */
  lemma AtoiOfOthers(n: nat, space: byte, s: seq<byte>)
    requires space == 32 || 9 <= space <= 13
    ensures Atoi([space] + s) == Atoi(s)
    ensures Atoi([45] + Decimal(n)) == 0 - n && Atoi([43] + Decimal(n)) == n
    ensures s == [] || !(s[0] in {32, 43, 45} || 9 <= s[0] <= 13 || 48 <= s[0] <= 57) ==> Atoi(s) == 0
  {
    AtoiOfDecimal(n, []);
    assert Decimal(n) + [] == Decimal(n);
    assert ([space] + s)[1..] == s && ([45] + Decimal(n))[1..] == Decimal(n) && ([43] + Decimal(n))[1..] == Decimal(n);
  }
}
