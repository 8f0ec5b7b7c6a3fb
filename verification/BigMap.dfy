/** JavaScript's 32-bit operators on integers. */
module Int32 {
  const TWO_32: int := 0x1_0000_0000

  /** The 32-bit word an operand is reduced to, as a number from 0. */
  function ToUint32(n: int): (r: nat)
    ensures r < TWO_32
  {
    n % TWO_32
  }

  /** The same word read in two's complement. */
  function ToInt32(n: int): (r: int)
    ensures ToUint32(r) == ToUint32(n)
  {
    var u := ToUint32(n);
    if u < 0x8000_0000 then u else u - TWO_32
  }

  function Imul(a: int, b: int): int { ToInt32(ToUint32(a) * ToUint32(b)) }

  function AndBits(x: nat, y: nat): (r: nat)
    ensures r <= y
  {
    if x == 0 || y == 0 then 0 else 2 * AndBits(x / 2, y / 2) + x % 2 * (y % 2)
  }

  function XorBits(x: nat, y: nat): nat {
    if x == 0 then y else if y == 0 then x else 2 * XorBits(x / 2, y / 2) + (x % 2 + y % 2) % 2
  }

  /** `a & b`. */
  function And(a: int, b: int): int { ToInt32(AndBits(ToUint32(a), ToUint32(b))) }

  /** `a ^ b`. */
  function Xor(a: int, b: int): int { ToInt32(XorBits(ToUint32(a), ToUint32(b))) }

  function Pow2(k: nat): (r: nat)
    ensures r > 0
  {
    if k == 0 then 1 else 2 * Pow2(k - 1)
  }

  /** `n >>> k`. */
  function ShiftRight(n: int, k: nat): nat { if k == 0 then ToUint32(n) else ShiftRight(n, k - 1) / 2 }

  predicate IsPow2(n: nat) { n == 1 || (n > 1 && n % 2 == 0 && IsPow2(n / 2)) }

  /** Masking with `n - 1` is the remainder by `n`, for a power of two. */
  lemma {:induction false} MaskIsRemainder(x: nat, n: nat)
    requires IsPow2(n)
    ensures AndBits(x, n - 1) == x % n
    decreases n
  {
    if n > 1 {
      MaskIsRemainder(x / 2, n / 2);
      assert (n - 1) / 2 == n / 2 - 1 && (n - 1) % 2 == 1;
      Halved(x, n / 2);
    }
  }

  lemma Halved(x: nat, m: nat)
    requires m > 0
    ensures x % (2 * m) == 2 * (x / 2 % m) + x % 2
  {
    var q, r := x / 2 / m, x / 2 % m;
    assert x / 2 == q * m + r;
    assert x == q * (2 * m) + (2 * r + x % 2) by {
      assert x == 2 * (q * m + r) + x % 2;
      assert 2 * (q * m) == q * (2 * m);
    }
    RemainderIs(x, 2 * m, q, 2 * r + x % 2);
  }

  lemma RemainderIs(x: nat, d: nat, q: nat, r: nat)
    requires x == q * d + r && r < d
    ensures x % d == r
  {
    var p := x / d;
    assert x == p * d + x % d;
    assert (q - p) * d == q * d - p * d;
    if p != q { Multiple(q - p, d); }
  }

  lemma {:induction false} Multiple(k: int, d: nat)
    requires k != 0
    ensures k * d >= d || k * d + d <= 0
    decreases if k > 0 then k else -k
  {
    if k > 1 {
      Multiple(k - 1, d);
      assert k * d == (k - 1) * d + d;
    } else if k < -1 {
      Multiple(k + 1, d);
      assert k * d == (k + 1) * d - d;
    }
  }

  /** `n & (n - 1)` is zero exactly for the powers of two. */
  lemma {:induction false} PowersOfTwo(n: nat)
    requires n > 0
    ensures AndBits(n, n - 1) == 0 <==> IsPow2(n)
    decreases n
  {
    if n > 1 {
      if n % 2 == 0 {
        PowersOfTwo(n / 2);
        assert (n - 1) / 2 == n / 2 - 1;
      } else {
        assert AndBits(n / 2, (n - 1) / 2) == AndBits(n / 2, n / 2) == n / 2 by { AndSelf(n / 2); }
      }
    }
  }

  lemma AndIsBits(a: nat, b: nat)
    requires a < TWO_32 && b < TWO_32
    ensures And(a, b) == 0 <==> AndBits(a, b) == 0
    ensures b < 0x8000_0000 ==> And(a, b) == AndBits(a, b)
  {
    hide AndBits, ToUint32, ToInt32;
    WordIs(a);
    WordIs(b);
    WordIs(AndBits(a, b));
  }

  /** A word is its own number, and below 2^31 reads the same in two's complement. */
  lemma WordIs(u: nat)
    requires u < TWO_32
    ensures ToUint32(u) == u
    ensures ToInt32(u) == 0 <==> u == 0
    ensures u < 0x8000_0000 ==> ToInt32(u) == u
  {}

  // ----- The operators on unsigned words -----

  /** The k-th binary digit. */
  function Bit(n: nat, k: nat): nat { if k == 0 then n % 2 else Bit(n / 2, k - 1) }

  lemma {:induction false} BitwiseIs(x: nat, y: nat, k: nat)
    ensures Bit(XorBits(x, y), k) == if Bit(x, k) != Bit(y, k) then 1 else 0
    ensures Bit(AndBits(x, y), k) == if Bit(x, k) == 1 && Bit(y, k) == 1 then 1 else 0
    decreases k
  {
    hide XorBits, AndBits;
    HalvesXor(x, y);
    HalvesAnd(x, y);
    if k > 0 { BitwiseIs(x / 2, y / 2, k - 1); }
  }

  lemma Halving(n: nat, bit: nat)
    requires bit < 2
    ensures (2 * n + bit) / 2 == n && (2 * n + bit) % 2 == bit
  {}

  lemma HalvesXor(x: nat, y: nat)
    ensures XorBits(x, y) / 2 == XorBits(x / 2, y / 2) && XorBits(x, y) % 2 == if x % 2 != y % 2 then 1 else 0
  {
    if x != 0 && y != 0 {
      var bit := (x % 2 + y % 2) % 2;
      Halving(XorBits(x / 2, y / 2), bit);
    }
  }

  lemma HalvesAnd(x: nat, y: nat)
    ensures AndBits(x, y) / 2 == AndBits(x / 2, y / 2)
    ensures AndBits(x, y) % 2 == if x % 2 == 1 && y % 2 == 1 then 1 else 0
  {
    if x != 0 && y != 0 {
      var bit := x % 2 * (y % 2);
      assert bit == if x % 2 == 1 && y % 2 == 1 then 1 else 0 by {
        if x % 2 == 0 { assert bit == 0; } else { assert bit == y % 2; }
      }
      Halving(AndBits(x / 2, y / 2), bit);
    }
  }

  lemma {:induction false} XorBound(x: nat, y: nat, k: nat)
    requires x < Pow2(k) && y < Pow2(k)
    ensures XorBits(x, y) < Pow2(k)
    decreases k
  {
    if k > 0 { XorBound(x / 2, y / 2, k - 1); }
  }

  lemma QuotientIs(x: nat, d: nat, q: nat, r: nat)
    requires d > 0 && x == q * d + r && r < d
    ensures x / d == q
  {
    RemainderIs(x, d, q, r);
    var p := x / d;
    assert x == p * d + x % d;
    assert (q - p) * d == q * d - p * d;
    if p != q { Multiple(q - p, d); }
  }

  lemma HalfOfQuotient(x: nat, d: nat)
    requires d > 0
    ensures x / d / 2 == x / (2 * d)
  {
    var q, r := x / d, x % d;
    assert x == q * d + r;
    var s, t := q / 2, q % 2;
    TwiceAndBit(s, t, d);
    assert q == 2 * s + t;
    QuotientIs(x, 2 * d, s, t * d + r);
  }

  lemma TwiceAndBit(s: nat, t: nat, d: nat)
    requires t < 2
    ensures (2 * s + t) * d == s * (2 * d) + t * d && 0 <= t * d <= d
  {
    if t == 0 { assert t * d == 0; } else { assert t * d == d; }
    assert 2 * s * d == s * (2 * d);
    assert (2 * s + t) * d == 2 * s * d + t * d;
  }

  /** `>>>` is a division of the word. */
  lemma {:induction false} ShiftIs(n: int, k: nat)
    ensures ShiftRight(n, k) == ToUint32(n) / Pow2(k)
  {
    if k > 0 {
      ShiftIs(n, k - 1);
      HalfOfQuotient(ToUint32(n), Pow2(k - 1));
    }
  }

  /** `Math.imul` is multiplication modulo 2^32. */
  lemma ImulIs(a: int, b: int)
    ensures ToUint32(Imul(a, b)) == a * b % 0x1_0000_0000
  {
    ProductOfRemainders(a, b, 0x1_0000_0000);
  }

  lemma ProductOfRemainders(a: int, b: int, m: nat)
    requires m > 0
    ensures (a % m) * (b % m) % m == a * b % m
  {
    var qa, ra, qb, rb := a / m, a % m, b / m, b % m;
    var q := qa * qb * m + qa * rb + ra * qb;
    assert a == qa * m + ra && b == qb * m + rb;
    assert a * b == q * m + ra * rb by {
      assert (qa * m + ra) * (qb * m + rb) == qa * m * (qb * m) + qa * m * rb + ra * (qb * m) + ra * rb;
      assert qa * m * (qb * m) == qa * qb * m * m;
      assert qa * m * rb == qa * rb * m;
      assert ra * (qb * m) == ra * qb * m;
    }
    AddMultiple(ra * rb, q, m);
  }

  lemma AddMultiple(x: int, q: int, m: nat)
    requires m > 0
    ensures (q * m + x) % m == x % m
  {
    var p, r := x / m, x % m;
    var y := q * m + x;
    assert x == p * m + r;
    assert y == (q + p) * m + r by { assert (q + p) * m == q * m + p * m; }
    var p2, r2 := y / m, y % m;
    assert y == p2 * m + r2;
    assert (q + p - p2) * m == r2 - r by { assert (q + p - p2) * m == (q + p) * m - p2 * m; }
    if q + p != p2 { Multiple(q + p - p2, m); }
  }

  lemma {:induction false} AndSelf(x: nat)
    ensures AndBits(x, x) == x
  {
    if x > 0 { AndSelf(x / 2); }
  }
}

/** The sharded map: entries are spread over an array of `Map`s by a hash of the key. */
module BigMap {
  import opened Wrappers
  import opened Int32
  import opened JsMap

  /** `charCodeAt`; an index outside the string gives NaN, which `Math.imul` takes as 0. */
  function CharCodeAt(s: string, i: int): int {
    if 0 <= i < |s| then s[i] as int else 0
  }

  /** The mixed word before it is reduced to an index. */
  function Mix(key: string): (word: nat)
    ensures word < TWO_32
  {
    var len := |key|;
    var sum := Imul(len, 0x9e3779b9)
             + Imul(CharCodeAt(key, 0), 0x85ebca6b)
             + Imul(CharCodeAt(key, len - 1), 0xc2b2ae35)
             + Imul(CharCodeAt(key, len / 2), 0x27d4eb2f)
             + Imul(CharCodeAt(key, len / 4), 0x165667b1);
    var h1 := Xor(sum, ShiftRight(sum, 16));
    var h2 := Imul(h1, 0x85ebca6b);
    ToUint32(Xor(h2, ShiftRight(h2, 13)))
  }

  /** The length and the sampled characters, each with its factor, as an unsigned word. */
  function Sampled(key: string): nat {
    (|key| * 0x9e3779b9
     + CharCodeAt(key, 0) * 0x85ebca6b
     + CharCodeAt(key, |key| - 1) * 0xc2b2ae35
     + CharCodeAt(key, |key| / 2) * 0x27d4eb2f
     + CharCodeAt(key, |key| / 4) * 0x165667b1) % 0x1_0000_0000
  }

  lemma AddWords(a: int, b: int, c: int, d: int)
    requires a % TWO_32 == c % TWO_32 && b % TWO_32 == d % TWO_32
    ensures (a + b) % TWO_32 == (c + d) % TWO_32
  {
    var p, q := (a - c) / TWO_32, (b - d) / TWO_32;
    SameRemainder(a, c);
    SameRemainder(b, d);
    assert a + b == (p + q) * TWO_32 + (c + d);
    AddMultiple(c + d, p + q, TWO_32);
  }

  lemma SameRemainder(a: int, c: int)
    requires a % TWO_32 == c % TWO_32
    ensures a == (a - c) / TWO_32 * TWO_32 + c
  {}

  lemma SampledIs(key: string)
    ensures var len := |key|;
            ToUint32(Imul(len, 0x9e3779b9) + Imul(CharCodeAt(key, 0), 0x85ebca6b) + Imul(CharCodeAt(key, len - 1), 0xc2b2ae35)
                     + Imul(CharCodeAt(key, len / 2), 0x27d4eb2f) + Imul(CharCodeAt(key, len / 4), 0x165667b1)) == Sampled(key)
  {
    hide Imul, ToInt32, CharCodeAt;
    var len := |key|;
    var c0, c1, c2, c3 := CharCodeAt(key, 0), CharCodeAt(key, len - 1), CharCodeAt(key, len / 2), CharCodeAt(key, len / 4);
    ImulIs(len, 0x9e3779b9);
    ImulIs(c0, 0x85ebca6b);
    ImulIs(c1, 0xc2b2ae35);
    ImulIs(c2, 0x27d4eb2f);
    ImulIs(c3, 0x165667b1);
    var a, b, c, d, e := Imul(len, 0x9e3779b9), Imul(c0, 0x85ebca6b), Imul(c1, 0xc2b2ae35), Imul(c2, 0x27d4eb2f), Imul(c3, 0x165667b1);
    AddWords(a, b, len * 0x9e3779b9, c0 * 0x85ebca6b);
    AddWords(a + b, c, len * 0x9e3779b9 + c0 * 0x85ebca6b, c1 * 0xc2b2ae35);
    AddWords(a + b + c, d, len * 0x9e3779b9 + c0 * 0x85ebca6b + c1 * 0xc2b2ae35, c2 * 0x27d4eb2f);
    AddWords(a + b + c + d, e, len * 0x9e3779b9 + c0 * 0x85ebca6b + c1 * 0xc2b2ae35 + c2 * 0x27d4eb2f, c3 * 0x165667b1);
  }

  /** The mixed word in unsigned arithmetic: the sampled word, folded upon itself by 16 bits, multiplied, and
      folded by 13 bits. */
  lemma MixIs(key: string)
    ensures var w := Sampled(key);
            var h := XorBits(w, w / 65536) * 0x85ebca6b % 0x1_0000_0000;
            Mix(key) == XorBits(h, h / 8192)
  {
    hide XorBits, Imul, ToInt32, ToUint32, ShiftRight, Xor, Sampled;
    var len := |key|;
    var sum := Imul(len, 0x9e3779b9) + Imul(CharCodeAt(key, 0), 0x85ebca6b) + Imul(CharCodeAt(key, len - 1), 0xc2b2ae35)
               + Imul(CharCodeAt(key, len / 2), 0x27d4eb2f) + Imul(CharCodeAt(key, len / 4), 0x165667b1);
    SampledIs(key);
    FoldIs(sum, 16, 65536);
    var h1 := Xor(sum, ShiftRight(sum, 16));
    ImulOfWord(h1, 0x85ebca6b);
    ImulIs(ToUint32(h1), 0x85ebca6b);
    FoldIs(Imul(h1, 0x85ebca6b), 13, 8192);
  }

  /** `h ^ (h >>> k)` as a word. */
  lemma FoldIs(n: int, k: nat, d: nat)
    requires (k == 16 && d == 65536) || (k == 13 && d == 8192)
    ensures ToUint32(Xor(n, ShiftRight(n, k))) == XorBits(ToUint32(n), ToUint32(n) / d)
  {
    hide XorBits;
    ShiftIs(n, k);
    assert Pow2(13) == 8192 && Pow2(16) == 65536 by { Powers(); }
    var u := ToUint32(n);
    assert u / d <= u;
    WordIs(u / d);
    XorWord(u, u / d);
  }

  lemma Powers()
    ensures Pow2(13) == 8192 && Pow2(16) == 65536
  {
    assert Pow2(8) == 256;
  }

  lemma XorWord(x: nat, y: nat)
    requires x < TWO_32 && y < TWO_32
    ensures XorBits(x, y) < TWO_32 && ToUint32(ToInt32(XorBits(x, y))) == XorBits(x, y)
  {
    Grows(0, 32);
    XorBound(x, y, 32);
  }

  lemma ImulOfWord(a: int, b: int)
    ensures Imul(a, b) == Imul(ToUint32(a), b)
  {
    assert ToUint32(ToUint32(a)) == ToUint32(a);
  }

  /** `(storeSize & (storeSize - 1)) === 0`. */
  predicate MaskApplies(storeSize: nat)
    requires storeSize > 0
  {
    And(storeSize, storeSize - 1) == 0
  }

  /** A word as an index: masked when that is possible, else the remainder. */
  function Reduce(word: nat, storeSize: nat): int
    requires storeSize > 0
  {
    if MaskApplies(storeSize) then And(word, storeSize - 1) else word % storeSize
  }

  function DefaultHash(key: string, storeSize: nat): int
    requires storeSize > 0
  {
    Reduce(Mix(key), storeSize)
  }

  /** The mask is used exactly for powers of two, and gives the remainder: the index is in range. */
  lemma ReduceIsRemainder(word: nat, storeSize: nat)
    requires 0 < storeSize < TWO_32 && word < TWO_32
    ensures MaskApplies(storeSize) <==> IsPow2(storeSize)
    ensures Reduce(word, storeSize) == word % storeSize
  {
    hide And, AndBits, IsPow2;
    PowersOfTwo(storeSize);
    AndIsBits(storeSize, storeSize - 1);
    if IsPow2(storeSize) {
      MaskIsRemainder(word, storeSize);
      NoPowerBetween(storeSize);
      AndIsBits(word, storeSize - 1);
    }
  }

  /** The default hash, for every key and every size: the mixed word modulo the size. */
  lemma DefaultHashIs(key: string, storeSize: nat)
    requires 0 < storeSize < TWO_32
    ensures var w := Sampled(key);
            var h := XorBits(w, w / 65536) * 0x85ebca6b % 0x1_0000_0000;
            DefaultHash(key, storeSize) == XorBits(h, h / 8192) % storeSize
  {
    hide XorBits, Sampled, Mix, Reduce;
    MixIs(key);
    ReduceIsRemainder(Mix(key), storeSize);
  }

  lemma HashInRange(key: string, storeSize: nat)
    requires 0 < storeSize < TWO_32
    ensures 0 <= DefaultHash(key, storeSize) < storeSize
  {
    ReduceIsRemainder(Mix(key), storeSize);
  }

  lemma NoPowerBetween(n: nat)
    requires IsPow2(n) && n < TWO_32
    ensures n <= 0x8000_0000
  {
    PowerIs(n);
    var k: nat :| n == Pow2(k);
    if k >= 32 { Grows(32, k); }
    if k < 32 { Grows(k, 31); }
  }

  lemma {:induction false} PowerIs(n: nat)
    requires IsPow2(n)
    ensures exists k: nat :: n == Pow2(k)
  {
    if n == 1 {
      assert n == Pow2(0);
    } else {
      PowerIs(n / 2);
      var k: nat :| n / 2 == Pow2(k);
      assert n == Pow2(k + 1);
    }
  }

  lemma {:induction false} Grows(j: nat, k: nat)
    requires j <= k
    ensures Pow2(j) <= Pow2(k)
    ensures Pow2(31) == 0x8000_0000 && Pow2(32) == TWO_32
  {
    if j < k { Grows(j, k - 1); }
    assert Pow2(8) == 256;
    assert Pow2(16) == 65536;
    assert Pow2(24) == 0x100_0000;
    assert Pow2(28) == 0x1000_0000;
  }

  // ----- The store: an array of maps -----

  type Store<K, V> = seq<Entries<K, V>>

  /** Where the keys are: in the shard `at` names, and nowhere else. */
  ghost predicate Sharded<K, V>(store: Store<K, V>, at: K -> int) {
    forall i :: 0 <= i < |store| ==> Valid(store[i]) && forall j :: 0 <= j < |store[i]| ==> at(store[i][j].0) == i
  }

  /** All entries, shard by shard. */
  function Flat<K, V>(store: Store<K, V>): Entries<K, V> {
    if store == [] then [] else Flat(store[..|store| - 1]) + store[|store| - 1]
  }

  lemma {:induction false} FlatAt<K, V>(store: Store<K, V>, at: K -> int)
    requires Sharded(store, at)
    ensures Valid(Flat(store))
    ensures forall p :: p in Flat(store) ==> 0 <= at(p.0) < |store| && p in store[at(p.0)]
  {
    if store != [] {
      var last := |store| - 1;
      FlatAt(store[..last], at);
      assert forall p :: p in store[last] ==> at(p.0) == last;
      var a: Entries<K, V>, b: Entries<K, V> := Flat(store[..last]), store[last];
      var both: Entries<K, V> := a + b;
      forall i, j | 0 <= i < j < |both| ensures both[i].0 != both[j].0 {
        if i < |a| <= j { assert a[i] in a && b[j - |a|] in b; }
      }
    }
  }

  lemma {:induction false} InFlat<K, V>(store: Store<K, V>, i: nat, p: (K, V))
    requires i < |store| && p in store[i]
    ensures p in Flat(store)
  {
    if i < |store| - 1 { InFlat(store[..|store| - 1], i, p); }
  }

  /** The single map the shards stand for. */
  ghost function Contents<K, V>(store: Store<K, V>): map<K, V> { ToMap(Flat(store)) }

  /** Reading the shard of a key reads the single map. */
  lemma ContentsAt<K, V>(store: Store<K, V>, at: K -> int, k: K)
    requires Sharded(store, at) && 0 <= at(k) < |store|
    ensures Get(store[at(k)], k) == Lookup(Contents(store), k)
  {
    FlatAt(store, at);
    var flat, shard := Flat(store), store[at(k)];
    if k in Contents(store) {
      assert flat[IndexOf(flat, k)] in flat;
      var j :| 0 <= j < |shard| && shard[j] == flat[IndexOf(flat, k)];
      IndexIs(shard, j);
    } else if Has(shard, k) {
      InFlat(store, at(k), shard[IndexOf(shard, k)]);
    }
  }

  lemma ContentsSize<K, V>(store: Store<K, V>, at: K -> int)
    requires Sharded(store, at)
    ensures |Contents(store)| == |Flat(store)|
  {
    FlatAt(store, at);
    SizeIs(Flat(store));
  }

  lemma KeysPlaced<K, V>(store: Store<K, V>, at: K -> int)
    requires Sharded(store, at)
    ensures forall k :: k in Contents(store) ==> 0 <= at(k) < |store|
  {
    FlatAt(store, at);
    forall k | k in Contents(store) ensures 0 <= at(k) < |store| {
      assert Flat(store)[IndexOf(Flat(store), k)] in Flat(store);
    }
  }

  /** Stores with the same cells stand for the same map. */
  lemma SameContents<K, V>(store: Store<K, V>, at: K -> int, r: map<K, V>)
    requires Sharded(store, at)
    requires forall k :: k in r ==> 0 <= at(k) < |store|
    requires forall k {:trigger at(k)} :: 0 <= at(k) < |store| ==> Get(store[at(k)], k) == Lookup(r, k)
    ensures Contents(store) == r
  {
    KeysPlaced(store, at);
    forall k ensures Lookup(Contents(store), k) == Lookup(r, k) {
      if 0 <= at(k) < |store| { ContentsAt(store, at, k); }
    }
    SameLookups(Contents(store), r);
  }

  // ----- The class -----

  type HashFunction = (string, nat) -> real

  function Abs(n: int): nat { if n < 0 then -n else n }

  /** The shard of a key: the default hash's, or that of a custom hash made an index; one shard needs no hash. */
  function ShardOf(key: string, storeSize: nat, custom: Option<HashFunction>): int
    requires storeSize > 0
  {
    if storeSize == 1 then 0
    else
      match custom
      case None => DefaultHash(key, storeSize)
      case Some(f) => Abs(f(key, storeSize).Floor) % storeSize
  }

  lemma ShardInRange(key: string, storeSize: nat, custom: Option<HashFunction>)
    requires 0 < storeSize < TWO_32
    ensures 0 <= ShardOf(key, storeSize, custom) < storeSize
  {
    HashInRange(key, storeSize);
  }

  class BigMap<K(==), V> {
    /** `String(key)`. */
    const text: K -> string
    var storeSize: nat
    var store: Store<K, V>
    var storeHashFunction: Option<HashFunction>
    var isDefaultHash: bool
    var isPowerOf2: bool

    ghost predicate Valid()
      reads this
    {
      && 0 < storeSize < TWO_32 && |store| == storeSize
      && isPowerOf2 == MaskApplies(storeSize)
      && isDefaultHash == storeHashFunction.None?
      && Sharded(store, At())
    }

    ghost function At(): K -> int
      requires storeSize > 0
      reads this
    {
      var size, custom, t := storeSize, storeHashFunction, text;
      (k: K) => ShardOf(t(k), size, custom)
    }

    /** The single map this stands for. */
    ghost function Map(): map<K, V>
      reads this
    {
      Contents(store)
    }

    /** `storeSize` defaults to 2; a size below 1 is refused by `Create`. */
    constructor (size: nat, custom: Option<HashFunction>, text: K -> string)
      requires 0 < size < TWO_32
      ensures Valid() && Map() == map[] && storeSize == size && storeHashFunction == custom && this.text == text
    {
      storeSize := size;
      isPowerOf2 := And(size, size - 1) == 0;
      store := EmptyStore(size);
      storeHashFunction := custom;
      isDefaultHash := custom.None?;
      this.text := text;
      new;
      EmptyIs<K, V>(size);
    }

    static method Create(size: int, custom: Option<HashFunction>, text: K -> string) returns (r: Option<BigMap<K, V>>)
      requires size < TWO_32
      ensures r.Some? <==> size >= 1
      ensures r.Some? ==> fresh(r.value) && r.value.Valid() && r.value.Map() == map[] && r.value.storeSize == size
    {
      if size < 1 { return None; }
      var m := new BigMap(size, custom, text);
      r := Some(m);
    }

    /** Changing the number of shards clears the map. */
    method SetStoreSize(size: int) returns (ok: bool)
      requires Valid() && size < TWO_32
      modifies this
      ensures Valid() && storeHashFunction == old(storeHashFunction)
      ensures ok <==> size >= 1
      ensures Map() == (if ok then map[] else old(Map())) && storeSize == if ok then size else old(storeSize)
    {
      if size < 1 { return false; }
      storeSize := size;
      isPowerOf2 := And(size, size - 1) == 0;
      store := EmptyStore(size);
      EmptyIs<K, V>(size);
      ok := true;
    }

    /** The inlined hash: it names the shard the hash function names. */
    method Resolve(k: string) returns (i: nat)
      requires Valid() && storeSize != 1
      ensures i < storeSize && i == ShardOf(k, storeSize, storeHashFunction)
    {
      hide Imul, Xor, ShiftRight, And, CharCodeAt, MaskApplies;
      ShardInRange(k, storeSize, storeHashFunction);
      if isDefaultHash {
        var len := |k|;
        var c0 := CharCodeAt(k, 0);
        var c1 := CharCodeAt(k, len - 1);
        var c2 := CharCodeAt(k, len / 2);
        var c3 := CharCodeAt(k, len / 4);
        var h := Imul(len, 0x9e3779b9) + Imul(c0, 0x85ebca6b) + Imul(c1, 0xc2b2ae35)
               + Imul(c2, 0x27d4eb2f) + Imul(c3, 0x165667b1);
        h := Xor(h, ShiftRight(h, 16));
        h := Imul(h, 0x85ebca6b);
        h := Xor(h, ShiftRight(h, 13));
        assert ToUint32(h) == Mix(k);
        ReduceIsRemainder(ToUint32(h), storeSize);
        i := if isPowerOf2 then And(ToUint32(h), storeSize - 1) else ToUint32(h) % storeSize;
      } else {
        var raw := storeHashFunction.value(k, storeSize);
        i := Abs(raw.Floor) % storeSize;
      }
    }

    method GetStore(key: K) returns (i: nat)
      requires Valid()
      ensures i < |store| && i == At()(key)
    {
      if storeSize == 1 {
        i := 0;
      } else {
        i := Resolve(text(key));
      }
    }

    method Get(key: K) returns (value: Option<V>)
      requires Valid()
      ensures value == Lookup(Map(), key)
    {
      var i := GetStore(key);
      ContentsAt(store, At(), key);
      value := JsMap.Get(store[i], key);
    }

    method Has(key: K) returns (has: bool)
      requires Valid()
      ensures has <==> key in Map()
    {
      var i := GetStore(key);
      ContentsAt(store, At(), key);
      has := JsMap.Has(store[i], key);
    }

    method Set(key: K, value: V)
      requires Valid()
      modifies this`store
      ensures Valid() && Map() == old(Map())[key := value]
    {
      var i := GetStore(key);
      SetContents(store, At(), key, value);
      store := store[i := JsMap.Set(store[i], key, value)];
    }

    method Delete(key: K) returns (deleted: bool)
      requires Valid()
      modifies this`store
      ensures Valid() && Map() == old(Map()) - {key}
      ensures deleted <==> key in old(Map())
    {
      var i := GetStore(key);
      ContentsAt(store, At(), key);
      DeleteContents(store, At(), key);
      deleted := JsMap.Has(store[i], key);
      store := store[i := JsMap.Delete(store[i], key)];
    }

    method Clear()
      requires Valid()
      modifies this`store
      ensures Valid() && Map() == map[]
    {
      for i := 0 to storeSize
        invariant |store| == storeSize && forall j :: 0 <= j < i ==> store[j] == []
      {
        store := store[i := []];
      }
      assert store == EmptyStore<K, V>(storeSize);
      EmptyIs<K, V>(storeSize);
    }

    /** The number of keys of the single map. */
    method Size() returns (total: nat)
      requires Valid()
      ensures total == |Map()|
    {
      total := 0;
      for i := 0 to storeSize
        invariant total == |Flat(store[..i])|
      {
        assert store[..i + 1][..i] == store[..i];
        total := total + |store[i]|;
      }
      assert store[..storeSize] == store;
      ContentsSize(store, At());
    }

    /** Every pair of the single map, each once. */
    method Entries() returns (entries: JsMap.Entries<K, V>)
      requires Valid()
      ensures JsMap.Valid(entries) && ToMap(entries) == Map() && |entries| == |Map()|
    {
      entries := [];
      for i := 0 to storeSize
        invariant entries == Flat(store[..i])
      {
        assert store[..i + 1][..i] == store[..i];
        entries := entries + store[i];
      }
      assert store[..storeSize] == store;
      FlatAt(store, At());
      ContentsSize(store, At());
    }
  }

  function EmptyStore<K, V>(size: nat): (r: Store<K, V>)
    ensures |r| == size && forall i :: 0 <= i < size ==> r[i] == []
  {
    seq(size, _ => [])
  }

  lemma EmptyIs<K, V>(size: nat)
    ensures Contents(EmptyStore<K, V>(size)) == map[]
    ensures forall at: K -> int :: Sharded(EmptyStore<K, V>(size), at)
  {
    FlatEmpty(EmptyStore<K, V>(size));
  }

  lemma {:induction false} FlatEmpty<K, V>(store: Store<K, V>)
    requires forall i :: 0 <= i < |store| ==> store[i] == []
    ensures Flat(store) == []
  {
    if store != [] { FlatEmpty(store[..|store| - 1]); }
  }

  /** A changed shard changes the single map at the shard's own keys only. */
  lemma UpdateContents<K, V>(store: Store<K, V>, at: K -> int, i: nat, shard: Entries<K, V>, r: map<K, V>)
    requires Sharded(store, at) && i < |store|
    requires JsMap.Valid(shard) && forall j :: 0 <= j < |shard| ==> at(shard[j].0) == i
    requires forall q :: q in r ==> 0 <= at(q) < |store|
    requires forall q {:trigger at(q)} :: at(q) == i ==> JsMap.Get(shard, q) == Lookup(r, q)
    requires forall q {:trigger at(q)} :: at(q) != i ==> Lookup(r, q) == Lookup(Contents(store), q)
    ensures Sharded(store[i := shard], at) && Contents(store[i := shard]) == r
  {
    forall q {:trigger at(q)} | 0 <= at(q) < |store| ensures JsMap.Get(store[i := shard][at(q)], q) == Lookup(r, q) {
      ContentsAt(store, at, q);
    }
    SameContents(store[i := shard], at, r);
  }

  lemma SetContents<K, V>(store: Store<K, V>, at: K -> int, k: K, v: V)
    requires Sharded(store, at) && 0 <= at(k) < |store|
    ensures var t := store[at(k) := JsMap.Set(store[at(k)], k, v)];
            Sharded(t, at) && Contents(t) == Contents(store)[k := v]
  {
    var shard := store[at(k)];
    var after := JsMap.Set(shard, k, v);
    SetIs(shard, k, v);
    KeysPlaced(store, at);
    forall q {:trigger at(q)} | at(q) == at(k) ensures JsMap.Get(after, q) == Lookup(Contents(store)[k := v], q) {
      ContentsAt(store, at, q);
      GetIs(after, q);
      GetIs(shard, q);
    }
    UpdateContents(store, at, at(k), after, Contents(store)[k := v]);
  }

  lemma DeletePlaced<K, V>(shard: Entries<K, V>, at: K -> int, k: K)
    requires JsMap.Valid(shard) && forall j :: 0 <= j < |shard| ==> at(shard[j].0) == at(k)
    ensures forall j :: 0 <= j < |JsMap.Delete(shard, k)| ==> at(JsMap.Delete(shard, k)[j].0) == at(k)
  {
    DeleteValid(shard, k);
    forall j | 0 <= j < |JsMap.Delete(shard, k)| ensures at(JsMap.Delete(shard, k)[j].0) == at(k) {
      assert JsMap.Delete(shard, k)[j] in shard;
    }
  }

  lemma DeleteContents<K, V>(store: Store<K, V>, at: K -> int, k: K)
    requires Sharded(store, at) && 0 <= at(k) < |store|
    ensures var t := store[at(k) := JsMap.Delete(store[at(k)], k)];
            Sharded(t, at) && Contents(t) == Contents(store) - {k}
  {
    var shard := store[at(k)];
    var after := JsMap.Delete(shard, k);
    DeleteIs(shard, k);
    DeletePlaced(shard, at, k);
    KeysPlaced(store, at);
    forall q {:trigger at(q)} | at(q) == at(k) ensures JsMap.Get(after, q) == Lookup(Contents(store) - {k}, q) {
      ContentsAt(store, at, q);
      GetIs(after, q);
      GetIs(shard, q);
    }
    UpdateContents(store, at, at(k), after, Contents(store) - {k});
  }
}
