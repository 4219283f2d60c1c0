// pbkdf2 of internal/auth/auth.go against section 5.2 of RFC 8018, over any
// pseudorandom function with 32-byte results.
module Pbkdf2 {

  type Byte = bv8
  type Bytes = seq<Byte>
  type Prf = (Bytes, Bytes) -> Bytes

  const HASH := 32
  const COUNTERS := 0x1_0000_0000

  ghost predicate IsPrf(prf: Prf) {
    forall key: Bytes, text: Bytes :: |prf(key, text)| == HASH
  }

  // ------------------------------------------------------------ the standard

  /** INT(i): the four octets of a 32-bit block number, most significant first. */
  function Int32(i: nat): (r: Bytes)
    requires i < COUNTERS
    ensures |r| == 4
  {
    [(i / 0x100_0000) as Byte, (i / 0x1_0000 % 0x100) as Byte, (i / 0x100 % 0x100) as Byte, (i % 0x100) as Byte]
  }

  function Xor(a: Bytes, b: Bytes): (r: Bytes)
    requires |a| == |b|
    ensures |r| == |a| && forall k :: 0 <= k < |a| ==> r[k] == a[k] ^ b[k]
  {
    if a == [] then [] else [a[0] ^ b[0]] + Xor(a[1..], b[1..])
  }

  /** U_c of one block. */
  ghost function U(prf: Prf, password: Bytes, salt: Bytes, counter: Bytes, c: nat): (r: Bytes)
    requires IsPrf(prf) && c >= 1
    ensures |r| == HASH
  {
    if c == 1 then prf(password, salt + counter) else prf(password, U(prf, password, salt, counter, c - 1))
  }

  /** F: the exclusive-or sum of the first `c` iterates. */
  ghost function F(prf: Prf, password: Bytes, salt: Bytes, counter: Bytes, c: nat): (r: Bytes)
    requires IsPrf(prf) && c >= 1
    ensures |r| == HASH
  {
    if c == 1 then U(prf, password, salt, counter, 1)
    else Xor(F(prf, password, salt, counter, c - 1), U(prf, password, salt, counter, c))
  }

  /** T_1 || T_2 || ... || T_l, with the block numbers as 32-bit counters. */
  ghost function Blocks(prf: Prf, password: Bytes, salt: Bytes, c: nat, l: nat): (r: Bytes)
    requires IsPrf(prf) && c >= 1
    ensures |r| == l * HASH
  {
    if l == 0 then [] else Blocks(prf, password, salt, c, l - 1) + F(prf, password, salt, Int32(l % COUNTERS), c)
  }

  function BlockCount(length: nat): nat {
    (length + HASH - 1) / HASH
  }

  ghost function Key(prf: Prf, password: Bytes, salt: Bytes, c: nat, length: nat): (r: Bytes)
    requires IsPrf(prf) && c >= 1
    ensures |r| == length
  {
    Blocks(prf, password, salt, c, BlockCount(length))[..length]
  }

  // ------------------------------------------------------------ the code

  /** binary.BigEndian.PutUint32. */
  method PutUint32(buf: array<Byte>, v: nat)
    requires buf.Length == 4 && v < COUNTERS
    modifies buf
    ensures buf[..] == Int32(v)
  {
    buf[0] := (v / 0x100_0000) as Byte;
    buf[1] := (v / 0x1_0000 % 0x100) as Byte;
    buf[2] := (v / 0x100 % 0x100) as Byte;
    buf[3] := (v % 0x100) as Byte;
  }

  /** The innermost loop: `t[j] ^= u[j]` over the array. */
  method XorInto(t: array<Byte>, u: Bytes)
    requires t.Length == |u|
    modifies t
    ensures t[..] == Xor(old(t[..]), u)
  {
    for j := 0 to t.Length
      invariant forall k :: 0 <= k < j ==> t[k] == old(t[k]) ^ u[k]
      invariant forall k :: j <= k < t.Length ==> t[k] == old(t[k])
    {
      t[j] := t[j] ^ u[j];
    }
  }

  /** copy(t, u). */
  method CopyInto(t: array<Byte>, u: Bytes)
    requires t.Length == |u|
    modifies t
    ensures t[..] == u
  {
    for j := 0 to t.Length
      invariant t[..j] == u[..j]
    {
      t[j] := u[j];
    }
  }

  lemma FirstIterate(prf: Prf, password: Bytes, salt: Bytes, counter: Bytes)
    requires IsPrf(prf)
    ensures prf(password, salt + counter) == U(prf, password, salt, counter, 1) == F(prf, password, salt, counter, 1)
  {
  }

  lemma NextIterate(prf: Prf, password: Bytes, salt: Bytes, counter: Bytes, c: nat)
    requires IsPrf(prf) && c >= 1
    ensures prf(password, U(prf, password, salt, counter, c)) == U(prf, password, salt, counter, c + 1)
    ensures Xor(F(prf, password, salt, counter, c), U(prf, password, salt, counter, c + 1))
         == F(prf, password, salt, counter, c + 1)
  {
  }

  /** One block: `u` is replaced and `t` accumulates in place. */
  method Block(prf: Prf, password: Bytes, salt: Bytes, buf: array<Byte>, iter: int, t: array<Byte>)
    requires IsPrf(prf) && buf.Length == 4 && t.Length == HASH && t != buf
    modifies t
    ensures t[..] == F(prf, password, salt, buf[..], if iter < 1 then 1 else iter)
  {
    ghost var counter := buf[..];
    var u := prf(password, salt + buf[..]);
    FirstIterate(prf, password, salt, counter);
    hide U, F, Xor;
    CopyInto(t, u);
    var i := 1;
    while i < iter
      invariant 1 <= i && (i <= iter || i == 1)
      invariant buf[..] == counter
      invariant u == U(prf, password, salt, counter, i) && t[..] == F(prf, password, salt, counter, i)
    {
      NextIterate(prf, password, salt, counter, i);
      u := prf(password, u);
      XorInto(t, u);
      i := i + 1;
    }
  }

  /** Every iteration count below one derives as one does. */
  method Derive(prf: Prf, password: Bytes, salt: Bytes, iter: int, keyLen: nat) returns (out: Bytes)
    requires IsPrf(prf)
    ensures out == Key(prf, password, salt, if iter < 1 then 1 else iter, keyLen)
  {
    var blocks := (keyLen + HASH - 1) / HASH;
    out := [];
    var buf := new Byte[4];
    for block := 1 to blocks + 1
      invariant out == Blocks(prf, password, salt, if iter < 1 then 1 else iter, block - 1)
    {
      PutUint32(buf, block % COUNTERS);
      var t := new Byte[HASH];
      Block(prf, password, salt, buf, iter, t);
      out := out + t[..];
    }
    out := out[..keyLen];
  }

  // ------------------------------------------------------------ properties

  lemma {:induction false} BlocksExtend(prf: Prf, password: Bytes, salt: Bytes, c: nat, m: nat, n: nat)
    requires IsPrf(prf) && c >= 1 && m <= n
    ensures Blocks(prf, password, salt, c, n)[..m * HASH] == Blocks(prf, password, salt, c, m)
  {
    if m < n {
      BlocksExtend(prf, password, salt, c, m, n - 1);
      var less := Blocks(prf, password, salt, c, n - 1);
      assert Blocks(prf, password, salt, c, n)[..m * HASH] == less[..m * HASH];
    }
  }

  /** A shorter key is always the beginning of a longer one. */
  lemma ShorterKeyIsPrefix(prf: Prf, password: Bytes, salt: Bytes, c: nat, short: nat, long: nat)
    requires IsPrf(prf) && c >= 1 && short <= long
    ensures Key(prf, password, salt, c, long)[..short] == Key(prf, password, salt, c, short)
  {
    var m, n := BlockCount(short), BlockCount(long);
    BlocksExtend(prf, password, salt, c, m, n);
    var all := Blocks(prf, password, salt, c, n);
    assert all[..m * HASH][..short] == all[..short] == all[..long][..short];
  }

  /** Octet `k` of a key, as the standard numbers blocks and octets. */
  lemma OctetOfKey(prf: Prf, password: Bytes, salt: Bytes, c: nat, length: nat, k: nat)
    requires IsPrf(prf) && c >= 1 && k < length
    ensures Key(prf, password, salt, c, length)[k]
         == F(prf, password, salt, Int32((k / HASH + 1) % COUNTERS), c)[k % HASH]
  {
    var l := k / HASH + 1;
    BlocksExtend(prf, password, salt, c, l, BlockCount(length));
    var upTo := Blocks(prf, password, salt, c, l);
    assert upTo[k] == Blocks(prf, password, salt, c, BlockCount(length))[..l * HASH][k];
    assert k == (l - 1) * HASH + k % HASH;
  }

  /**
   * Up to the length the standard allows, (2^32 - 1) * hLen, the 32-bit counter of a
   * block is its number, so every octet is the standard's.
   */
  lemma KeyIsTheStandards(prf: Prf, password: Bytes, salt: Bytes, c: nat, length: nat, k: nat)
    requires IsPrf(prf) && c >= 1 && k < length <= (COUNTERS - 1) * HASH
    ensures k / HASH + 1 < COUNTERS
    ensures Key(prf, password, salt, c, length)[k] == F(prf, password, salt, Int32(k / HASH + 1), c)[k % HASH]
  {
    OctetOfKey(prf, password, salt, c, length, k);
    CounterIsNumber(k);
    hide Key, F, Int32;
  }

  lemma CounterIsNumber(k: nat)
    requires k < (COUNTERS - 1) * HASH
    ensures k / HASH + 1 < COUNTERS && (k / HASH + 1) % COUNTERS == k / HASH + 1
  {
  }
}
