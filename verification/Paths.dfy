/** Paths and the two functions every container of the server rests on: the order
    su_string_compare and the hash hu_hash_string. */
module Paths {
  import opened Words

  // A C string: its bytes up to the terminating NUL.
  type Path = p: seq<Byte> | 0 !in p

  // su_string_compare: strncmp over the length of the shorter string, so a string compares
  // equal to each of its own prefixes.
  function Compare(a: seq<Byte>, b: seq<Byte>): int {
    if a == [] || b == [] then 0
    else if a[0] != b[0] then a[0] - b[0]
    else Compare(a[1..], b[1..])
  }

  predicate PrefixRelated(a: seq<Byte>, b: seq<Byte>) {
    a <= b || b <= a
  }

  // Equal, or neither is a prefix of the other.
  predicate Apart(a: seq<Byte>, b: seq<Byte>) {
    a == b || !PrefixRelated(a, b)
  }

  lemma {:induction false} CompareZero(a: seq<Byte>, b: seq<Byte>)
    ensures Compare(a, b) == 0 <==> PrefixRelated(a, b)
  {
    if a == [] || b == [] {
    } else {
      assert a == [a[0]] + a[1..] && b == [b[0]] + b[1..];
      CompareZero(a[1..], b[1..]);
    }
  }

  // Where two strings differ first, if neither is a prefix of the other.
  ghost predicate FirstDifference(a: seq<Byte>, b: seq<Byte>, i: nat) {
    i < |a| && i < |b| && a[..i] == b[..i] && a[i] != b[i]
  }

  /** The order is that of the first bytes that differ, taken as unsigned. */
  lemma {:induction false} CompareIsLexicographic(a: seq<Byte>, b: seq<Byte>, i: nat)
    requires FirstDifference(a, b, i)
    ensures Compare(a, b) < 0 <==> a[i] < b[i]
    ensures Compare(a, b) > 0 <==> a[i] > b[i]
    decreases i
  {
    if i > 0 {
      assert a[0] == a[..i][0] == b[..i][0] == b[0];
      assert a[1..][..i - 1] == a[..i][1..] && b[1..][..i - 1] == b[..i][1..];
      CompareIsLexicographic(a[1..], b[1..], i - 1);
    }
  }

  lemma {:induction false} CompareAntisymmetric(a: seq<Byte>, b: seq<Byte>)
    ensures Compare(a, b) == -Compare(b, a)
  {
    if a == [] || b == [] {
    } else {
      CompareAntisymmetric(a[1..], b[1..]);
    }
  }

  lemma {:induction false} CompareTransitive(a: seq<Byte>, b: seq<Byte>, c: seq<Byte>)
    requires Apart(a, b) && Apart(b, c) && Apart(a, c)
    requires Compare(a, b) <= 0 && Compare(b, c) <= 0
    ensures Compare(a, c) <= 0
  {
    if a == [] || b == [] || c == [] {
    } else {
      assert a == [a[0]] + a[1..] && b == [b[0]] + b[1..] && c == [c[0]] + c[1..];
      if a[0] == b[0] == c[0] {
        CompareTransitive(a[1..], b[1..], c[1..]);
      }
    }
  }

  // Without that condition the relation "compares equal" is not even transitive.
  lemma CompareIsNoOrder()
    ensures Compare([97, 98], [97]) == 0 && Compare([97], [97, 99]) == 0 && Compare([97, 98], [97, 99]) != 0
  {
  }

  // ------------------------------------------------------------------------------- the hash

  // char is signed on the platforms the server is written for.
  function SignedChar(c: Byte): int {
    if c < 0x80 then c else c - 0x100
  }

  function HashFrom(h: nat, s: seq<Byte>): nat
    decreases |s|
  {
    if s == [] then h else HashFrom(SizeT(h * 33 + SignedChar(s[0])), s[1..])
  }

  function Hash(s: seq<Byte>): nat {
    HashFrom(5381, s)
  }

  // The number whose remainder modulo 2^64 the hash is: the characters as digits of base 33 after 5381.
  function Digits(s: seq<Byte>): int {
    if s == [] then 5381 else 33 * Digits(s[..|s| - 1]) + SignedChar(s[|s| - 1])
  }

  lemma {:induction false} HashLast(h: nat, s: seq<Byte>)
    requires s != []
    ensures HashFrom(h, s) == SizeT(HashFrom(h, s[..|s| - 1]) * 33 + SignedChar(s[|s| - 1]))
    decreases |s|
  {
    if |s| > 1 {
      var next := SizeT(h * 33 + SignedChar(s[0]));
      HashLast(next, s[1..]);
      assert s[1..][..|s| - 2] == s[..|s| - 1][1..];
    }
  }

  lemma SizeTDigit(x: int, c: int)
    ensures SizeT(SizeT(x) * 33 + c) == SizeT(33 * x + c)
  {
    var q, q' := x / SIZE_MOD, (SizeT(x) * 33 + c) / SIZE_MOD;
    assert 33 * x + c == SIZE_MOD * (33 * q + q') + SizeT(SizeT(x) * 33 + c);
    assert (33 * x + c) / SIZE_MOD == 33 * q + q';
  }

  /** The hash does not depend on where the wrap-around happens. */
  lemma {:induction false} HashIsDigits(s: seq<Byte>)
    ensures Hash(s) == SizeT(Digits(s))
  {
    if s != [] {
      HashLast(5381, s);
      HashIsDigits(s[..|s| - 1]);
      SizeTDigit(Digits(s[..|s| - 1]), SignedChar(s[|s| - 1]));
    }
  }

  // hu_hash_string: ((hash << 5) + hash) + c, in size_t at every step.
  method HashString(str: Path) returns (hash: nat)
    ensures hash == Hash(str)
  {
    hash := 5381;
    var i := 0;
    while i < |str|
      invariant 0 <= i <= |str| && hash < SIZE_MOD
      invariant HashFrom(hash, str[i..]) == Hash(str)
    {
      SizeTAdd(hash * 32, hash + SignedChar(str[i]));
      assert str[i..][1..] == str[i + 1..];
      hash := SizeT(SizeT(hash * 32) + hash + SignedChar(str[i]));
      i := i + 1;
    }
  }
}
