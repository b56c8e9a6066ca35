/** The access token: random bytes turned into characters of an alphabet of 62, and how evenly they fall. */
module AccessToken {
  import opened Wrappers

  type byte = x: int | 0 <= x < 256

  const DIGITS := "0123456789"
  const LOWER := "abcdefghijklmnopqrstuvwxyz"
  const UPPER := "ABCDEFGHIJKLMNOPQRSTUVWXYZ"
  const ALPHABET := DIGITS + LOWER + UPPER

  /** The character at position `i` of the alphabet. */
  function Letter(i: nat): (c: char)
    requires i < 62
    ensures c as int < 128
  {
    if i < 10 then '0' + i as char else if i < 36 then 'a' + (i - 10) as char else 'A' + (i - 36) as char
  }

  predicate IsLetter(c: char) {
    '0' <= c <= '9' || 'a' <= c <= 'z' || 'A' <= c <= 'Z'
  }

  function IndexOf(c: char): (i: nat)
    requires IsLetter(c)
    ensures i < 62 && Letter(i) == c
  {
    if c <= '9' then (c - '0') as int else if c <= 'Z' then 36 + (c - 'A') as int else 10 + (c - 'a') as int
  }

  lemma LettersDiffer(i: nat, j: nat)
    requires i < 62 && j < 62
    ensures IsLetter(Letter(i)) && IndexOf(Letter(i)) == i
    ensures Letter(i) == Letter(j) <==> i == j
  {
  }

  lemma DigitsAre(i: nat)
    requires i < 10
    ensures |DIGITS| == 10 && DIGITS[i] == Letter(i)
  {
  }

  lemma LowerAre(i: nat)
    requires i < 26
    ensures |LOWER| == 26 && LOWER[i] == Letter(10 + i)
  {
  }

  lemma UpperAre(i: nat)
    requires i < 26
    ensures |UPPER| == 26 && UPPER[i] == Letter(36 + i)
  {
  }

  lemma AlphabetIs(i: nat)
    requires i < 62
    ensures |ALPHABET| == 62 && ALPHABET[i] == Letter(i)
    ensures i < 10 ==> ALPHABET[i] as int == '0' as int + i
    ensures 10 <= i < 36 ==> ALPHABET[i] as int == 'a' as int + i - 10
    ensures 36 <= i ==> ALPHABET[i] as int == 'A' as int + i - 36
  {
    DigitsAre(if i < 10 then i else 0);
    LowerAre(if 10 <= i < 36 then i - 10 else 0);
    UpperAre(if i >= 36 then i - 36 else 0);
    AppendedAt(DIGITS, LOWER, UPPER, i);
  }

  lemma AppendedAt(a: string, b: string, c: string, i: nat)
    requires i < |a| + |b| + |c|
    ensures (a + b + c)[i] == if i < |a| then a[i] else if i < |a| + |b| then b[i - |a|] else c[i - |a| - |b|]
  {
  }

  function Token(random: seq<byte>): (t: string)
    ensures |t| == |random|
    ensures forall i :: 0 <= i < |random| ==> t[i] == Letter(random[i] % 62)
  {
    seq(|random|, i requires 0 <= i < |random| => Letter(random[i] % 62))
  }

  /** Each character is that of the alphabet at the remainder of its byte. */
  lemma TokenIs(random: seq<byte>, i: nat)
    requires i < |random|
    ensures |ALPHABET| == 62 && Token(random)[i] == ALPHABET[random[i] % 62]
  {
    AlphabetIs(random[i] % 62);
  }

  /** `random` is what the system's generator delivers, or nothing if it fails. */
  method GenerateToken(n: nat, random: Option<seq<byte>>) returns (token: string)
    requires random.Some? ==> |random.value| == n
    ensures token == match random case None => "" case Some(bytes) => Token(bytes)
  {
    if random.None? { return ""; }
    var bytes := random.value;
    var b := new byte[n](i requires 0 <= i < n => bytes[i]);
    assert b[..] == bytes;
    Overwrite(b);
    token := seq(n, i requires 0 <= i < n reads b => b[i] as char);
    assert token == Token(bytes);
  }

  /** Each byte is replaced, in place, by the character its remainder selects. */
  method Overwrite(b: array<byte>)
    modifies b
    ensures forall i :: 0 <= i < b.Length ==> b[i] == Token(old(b[..]))[i] as int
  {
    AlphabetIs(0);
    for i := 0 to b.Length
      invariant forall j :: 0 <= j < i ==> b[j] == Token(old(b[..]))[j] as int
      invariant forall j :: i <= j < b.Length ==> b[j] == old(b[j])
    {
      var index := b[i] % |ALPHABET|;
      AlphabetIs(index);
      b[i] := ALPHABET[index] as int;
    }
  }

  // ---------------------------------------------------------------- sets of byte strings

  function Pow(b: nat, n: nat): nat {
    if n == 0 then 1 else b * Pow(b, n - 1)
  }

  lemma ConsIs(b: seq<byte>, x: byte, t: seq<byte>)
    ensures b == [x] + t <==> b != [] && b[0] == x && b[1..] == t
  {
    if b != [] { assert b == [b[0]] + b[1..]; }
  }

  /** The byte strings with a head from one set and a tail from another. */
  ghost function Consed(heads: set<byte>, tails: set<seq<byte>>): (r: set<seq<byte>>)
    ensures forall b: seq<byte> :: b in r <==> b != [] && b[0] in heads && b[1..] in tails
  {
    var r := set x, t | x in heads && t in tails :: [x] + t;
    assert forall b: seq<byte> :: b in r <==> b != [] && b[0] in heads && b[1..] in tails by {
      forall b: seq<byte> ensures b in r <==> b != [] && b[0] in heads && b[1..] in tails {
        if b != [] { ConsIs(b, b[0], b[1..]); }
        if b in r {
          var x, t :| x in heads && t in tails && b == [x] + t;
          ConsIs(b, x, t);
        }
      }
    }
    r
  }

  lemma ConsedLess(x: byte, t: seq<byte>, tails: set<seq<byte>>)
    requires t in tails
    ensures |Consed({x}, tails)| == |Consed({x}, tails - {t})| + 1
  {
    var all, rest := Consed({x}, tails), Consed({x}, tails - {t});
    ConsIs([x] + t, x, t);
    assert [x] + t in all && [x] + t !in rest;
    assert all - {[x] + t} == rest by {
      forall b: seq<byte> ensures b in all - {[x] + t} <==> b in rest { ConsIs(b, x, t); }
    }
  }

  lemma {:induction false} ConsedOne(x: byte, tails: set<seq<byte>>)
    ensures |Consed({x}, tails)| == |tails|
  {
    if tails == {} {
      assert Consed({x}, tails) == {};
    } else {
      var t :| t in tails;
      ConsedOne(x, tails - {t});
      ConsedLess(x, t, tails);
    }
  }

  lemma ConsedSplits(heads: set<byte>, x: byte, tails: set<seq<byte>>)
    requires x in heads
    ensures |Consed(heads, tails)| == |Consed(heads - {x}, tails)| + |Consed({x}, tails)|
  {
    var rest, one := Consed(heads - {x}, tails), Consed({x}, tails);
    forall b: seq<byte> ensures b in Consed(heads, tails) <==> b in rest || b in one {}
    assert Consed(heads, tails) == rest + one;
    assert rest !! one;
  }

  lemma OneMoreTimes(h: nat, t: nat)
    ensures (h + 1) * t == h * t + t
  {
  }

  lemma {:induction false} ConsedSize(heads: set<byte>, tails: set<seq<byte>>)
    ensures |Consed(heads, tails)| == |heads| * |tails|
  {
    if heads == {} {
      assert Consed(heads, tails) == {};
    } else {
      var x :| x in heads;
      ConsedSize(heads - {x}, tails);
      ConsedOne(x, tails);
      ConsedSplits(heads, x, tails);
      OneMoreTimes(|heads - {x}|, |tails|);
    }
  }

  ghost function BytesBelow(n: nat): (r: set<byte>)
    requires n <= 256
    ensures |r| == n && forall x: byte :: x in r <==> x < n
  {
    if n == 0 then {} else BytesBelow(n - 1) + {n - 1}
  }

  ghost function AllBytes(): (r: set<byte>)
    ensures |r| == 256 && forall x: byte :: x in r
  {
    BytesBelow(256)
  }

  /** All strings of `n` bytes. */
  ghost function ByteStrings(n: nat): (r: set<seq<byte>>)
    ensures forall b: seq<byte> :: b in r <==> |b| == n
  {
    if n == 0 then {[]} else Consed(AllBytes(), ByteStrings(n - 1))
  }

  lemma {:induction false} ByteStringsSize(n: nat)
    ensures |ByteStrings(n)| == Pow(256, n)
  {
    if n > 0 {
      ByteStringsSize(n - 1);
      ConsedSize(AllBytes(), ByteStrings(n - 1));
    }
  }

  // ---------------------------------------------------------------- remainders

  type slot = i: nat | i < 62

  function Slots(b: seq<byte>): (r: seq<slot>)
    ensures |r| == |b| && forall i :: 0 <= i < |b| ==> r[i] == b[i] % 62
  {
    seq(|b|, i requires 0 <= i < |b| => b[i] % 62)
  }

  /** The bytes with a given remainder: five of the 256 for the first eight remainders, four for the others. */
  ghost function BytesAt(i: slot): (r: set<byte>)
    ensures forall x: byte :: x in r <==> x % 62 == i
    ensures |r| == if i < 8 then 5 else 4
  {
    if i < 8 then {i, i + 62, i + 124, i + 186, i + 248} else {i, i + 62, i + 124, i + 186}
  }

  /** The byte strings with given remainders. */
  ghost function BytesGiving(slots: seq<slot>): (r: set<seq<byte>>)
    ensures forall b: seq<byte> :: b in r <==> Slots(b) == slots
  {
    if slots == [] then
      assert forall b: seq<byte> :: Slots(b) == [] <==> b == [];
      {[]}
    else
      var r := Consed(BytesAt(slots[0]), BytesGiving(slots[1..]));
      assert forall b: seq<byte> :: b in r <==> Slots(b) == slots by {
        forall b: seq<byte> ensures b in r <==> Slots(b) == slots {
          SlotsCons(b, slots);
        }
      }
      r
  }

  lemma SlotsCons(b: seq<byte>, slots: seq<slot>)
    requires slots != []
    ensures Slots(b) == slots <==> b != [] && b[0] % 62 == slots[0] && Slots(b[1..]) == slots[1..]
  {
    if b != [] {
      assert Slots(b)[1..] == Slots(b[1..]);
      assert Slots(b) == [Slots(b)[0]] + Slots(b)[1..];
      assert slots == [slots[0]] + slots[1..];
    }
  }

  function LowSlots(slots: seq<slot>): (k: nat)
    ensures k <= |slots|
  {
    if slots == [] then 0 else (if slots[0] < 8 then 1 else 0) + LowSlots(slots[1..])
  }

  /** `k` factors 5 and `m` factors 4. */
  function FivesAndFours(k: nat, m: nat): nat {
    Pow(5, k) * Pow(4, m)
  }

  lemma MoreFives(k: nat, m: nat)
    ensures 5 * FivesAndFours(k, m) == FivesAndFours(k + 1, m)
    ensures 4 * FivesAndFours(k, m) == FivesAndFours(k, m + 1)
  {
    var p, q := Pow(5, k), Pow(4, m);
    assert 5 * (p * q) == (5 * p) * q;
    assert 4 * (p * q) == p * (4 * q);
  }

  function Choices(slots: seq<slot>): nat {
    if slots == [] then 1
    else if slots[0] < 8 then 5 * Choices(slots[1..])
    else 4 * Choices(slots[1..])
  }

  lemma {:induction false} ChoicesArePowers(slots: seq<slot>)
    ensures Choices(slots) == FivesAndFours(LowSlots(slots), |slots| - LowSlots(slots))
  {
    if slots != [] {
      ChoicesArePowers(slots[1..]);
      MoreFives(LowSlots(slots[1..]), |slots| - 1 - LowSlots(slots[1..]));
    }
  }

  lemma {:induction false} BytesGivingSize(slots: seq<slot>)
    ensures |BytesGiving(slots)| == Choices(slots)
  {
    if slots != [] {
      BytesGivingSize(slots[1..]);
      ConsedSize(BytesAt(slots[0]), BytesGiving(slots[1..]));
    }
  }

  // ---------------------------------------------------------------- tokens

  ghost predicate IsToken(s: string) {
    forall i :: 0 <= i < |s| ==> IsLetter(s[i])
  }

  /** The elements of `all` that `f` maps into `images`. */
  ghost function Fibre(all: set<seq<byte>>, f: seq<byte> -> string, images: set<string>): set<seq<byte>> {
    set b | b in all && f(b) in images
  }

  /** The byte strings that give a token. */
  ghost function Preimage(s: string): set<seq<byte>> {
    Fibre(ByteStrings(|s|), Token, {s})
  }

  /** How many characters of a token are among the first eight of the alphabet, `0` to `7`. */
  function Favoured(s: string): nat {
    if s == [] then 0 else (if '0' <= s[0] <= '7' then 1 else 0) + Favoured(s[1..])
  }

  ghost function SlotsOf(s: string): (r: seq<slot>)
    requires IsToken(s)
    ensures |r| == |s| && forall i :: 0 <= i < |s| ==> r[i] == IndexOf(s[i])
  {
    seq(|s|, i requires 0 <= i < |s| => IndexOf(s[i]))
  }

  lemma {:induction false} FavouredAreLow(s: string)
    requires IsToken(s)
    ensures Favoured(s) == LowSlots(SlotsOf(s))
  {
    if s != [] {
      assert IsToken(s[1..]);
      FavouredAreLow(s[1..]);
      assert SlotsOf(s)[1..] == SlotsOf(s[1..]);
    }
  }

  lemma TokenBySlots(b: seq<byte>, s: string)
    requires IsToken(s)
    ensures Token(b) == s <==> Slots(b) == SlotsOf(s)
  {
    if |b| == |s| {
      forall i | 0 <= i < |s| ensures Token(b)[i] == s[i] <==> Slots(b)[i] == SlotsOf(s)[i] {
        LettersDiffer(b[i] % 62, IndexOf(s[i]));
      }
    }
  }

  lemma PreimageMembers(s: string, giving: set<seq<byte>>)
    requires forall b: seq<byte> :: b in giving <==> Token(b) == s
    ensures Preimage(s) == giving
  {
    forall b: seq<byte> ensures b in Preimage(s) <==> Token(b) == s {
      assert Token(b) == s ==> b in ByteStrings(|s|);
    }
  }

  lemma PreimageBySlots(s: string)
    requires IsToken(s)
    ensures |Preimage(s)| == Choices(SlotsOf(s))
  {
    var slots := SlotsOf(s);
    var giving := BytesGiving(slots);
    BytesGivingSize(slots);
    forall b: seq<byte> ensures b in giving <==> Token(b) == s {
      TokenBySlots(b, s);
    }
    PreimageMembers(s, giving);
  }

  lemma ChoicesOfToken(s: string)
    requires IsToken(s)
    ensures Favoured(s) <= |s| && Choices(SlotsOf(s)) == FivesAndFours(Favoured(s), |s| - Favoured(s))
  {
    FavouredAreLow(s);
    ChoicesArePowers(SlotsOf(s));
  }

  /**
   How many byte strings give each token: five for each character among the first eight of the alphabet, four for
   each other one, multiplied.
   */
  lemma PreimageSize(s: string)
    requires IsToken(s)
    ensures Favoured(s) <= |s|
    ensures |Preimage(s)| == FivesAndFours(Favoured(s), |s| - Favoured(s))
  {
    PreimageBySlots(s);
    ChoicesOfToken(s);
  }

  /** The tokens of `n` characters. */
  ghost function Tokens(n: nat): set<string> {
    set b | b in ByteStrings(n) :: Token(b)
  }

  lemma TokensAreLetters(b: seq<byte>)
    ensures IsToken(Token(b))
  {
    forall i | 0 <= i < |b| ensures IsLetter(Token(b)[i]) { LettersDiffer(b[i] % 62, 0); }
  }

  lemma EveryTokenIsGiven(s: string) returns (b: seq<byte>)
    requires IsToken(s)
    ensures Token(b) == s
  {
    b := SlotsOf(s);
    assert Slots(b) == SlotsOf(s);
    TokenBySlots(b, s);
  }

  lemma TokensAreAll(n: nat, s: string)
    ensures s in Tokens(n) <==> |s| == n && IsToken(s)
  {
    if |s| == n && IsToken(s) {
      var b := EveryTokenIsGiven(s);
      assert b in ByteStrings(n);
    }
    if s in Tokens(n) {
      var b :| b in ByteStrings(n) && Token(b) == s;
      TokensAreLetters(b);
    }
  }

  ghost function SumOfSizes(all: set<seq<byte>>, f: seq<byte> -> string, images: set<string>): nat {
    if images == {} then 0
    else
      var s :| s in images;
      |Fibre(all, f, {s})| + SumOfSizes(all, f, images - {s})
  }

  lemma FibreSplits(all: set<seq<byte>>, f: seq<byte> -> string, images: set<string>, s: string)
    requires s in images
    ensures |Fibre(all, f, images)| == |Fibre(all, f, {s})| + |Fibre(all, f, images - {s})|
  {
    var one, rest := Fibre(all, f, {s}), Fibre(all, f, images - {s});
    assert Fibre(all, f, images) == one + rest;
    assert one !! rest;
  }

  lemma {:induction false} FibresPartition(all: set<seq<byte>>, f: seq<byte> -> string, images: set<string>)
    ensures |Fibre(all, f, images)| == SumOfSizes(all, f, images)
  {
    if images == {} {
      assert Fibre(all, f, images) == {};
    } else {
      var s :| s in images && SumOfSizes(all, f, images) == |Fibre(all, f, {s})| + SumOfSizes(all, f, images - {s});
      FibresPartition(all, f, images - {s});
      FibreSplits(all, f, images, s);
    }
  }

  lemma WholeFibre(all: set<seq<byte>>, f: seq<byte> -> string, images: set<string>)
    requires forall b :: b in all ==> f(b) in images
    ensures Fibre(all, f, images) == all
  {
  }

  /** The sum of `|Preimage(s)|` over all tokens of `n` characters. */
  ghost function SumOfPreimages(n: nat): nat {
    SumOfSizes(ByteStrings(n), Token, Tokens(n))
  }

  /** The tokens of `n` characters are all strings over the alphabet, and their counts add up to 256^n. */
  lemma CountsAddUp(n: nat)
    ensures SumOfPreimages(n) == Pow(256, n)
    ensures forall s: string :: s in Tokens(n) <==> |s| == n && IsToken(s)
  {
    forall s: string ensures s in Tokens(n) <==> |s| == n && IsToken(s) {
      TokensAreAll(n, s);
    }
    FibresPartition(ByteStrings(n), Token, Tokens(n));
    WholeFibre(ByteStrings(n), Token, Tokens(n));
    ByteStringsSize(n);
  }
}
