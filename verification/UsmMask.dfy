/**
 The USM payload masks.  The reference is the byte-at-a-time loop; the row-chunked in-place routines are
 proved equal to it, and the reference is proved to be a bijection with an explicit encoder.
 */
module UsmMask {
  import opened Bytes

  const HEAD := 0x40       // first masked byte
  const BULK := 0x140      // first byte of the bulk pass
  const HEAD_LEN := 0x100
  const MIN_VIDEO := 0x240 // shorter video payloads are stored in clear

  type Mask = s: bytes | |s| == 32 witness seq(32, _ => 0)
  datatype VideoMask = VideoMask(head: Mask, bulk: Mask)

  datatype Masks = Masks(video: VideoMask, audio: Mask)

  // ----- the masks of a key

  function KeyByte(key: u64, i: nat): byte
  {
    if i == 0 then key % 0x100 else KeyByte(key / 0x100, i - 1)
  }

  /** Eight-bit arithmetic keeps the low byte, also below zero. */
  function Wrap(n: int): byte { n % 0x100 }

  /** The 25 bytes that follow the seven key-dependent seed bytes. */
  function Expanded(t0: byte, t1: byte, t2: byte, t3: byte, t4: byte, t5: byte, t6: byte): (r: bytes)
    ensures |r| == 25
  {
    var t7 := Xor(t0, 0xFF);
    var t8 := Wrap(t2 + t1);
    var t9 := Wrap(t1 - t7);
    var ta := Xor(t2, 0xFF);
    var tb := Xor(t1, 0xFF);
    var tc := Wrap(tb + t9);
    var td := Wrap(t8 - t3);
    var te := Xor(td, 0xFF);
    var tf := Wrap(ta - tb);
    var u0 := Wrap(t8 - tf);
    var u1 := Xor(u0, t7);
    var u2 := Xor(tf, 0xFF);
    var u3 := Xor(t3, 0x10);
    var u4 := Wrap(t4 - 0x32);
    var u5 := Wrap(t5 + 0xED);
    var u6 := Xor(t6, 0xF3);
    var u7 := Wrap(u3 - tf);
    var u8 := Wrap(u5 + t7);
    var u9 := Wrap(0x21 - u3);
    var ua := Xor(u4, u7);
    var ub := Wrap(u6 + u6);
    var uc := Wrap(u7 + 0x44);
    var ud := Wrap(t3 + t4);
    var ue := Wrap(t5 - u6);
    var uf := Xor(ud, u3);
    [t7, t8, t9, ta, tb, tc, td, te, tf,
     u0, u1, u2, u3, u4, u5, u6, u7, u8, u9, ua, ub, uc, ud, ue, uf]
  }

  function Schedule(t0: byte, t1: byte, t2: byte, t3: byte, t4: byte, t5: byte, t6: byte): (r: Mask)
    ensures r[..7] == [t0, t1, t2, t3, t4, t5, t6]
  {
    [t0, t1, t2, t3, t4, t5, t6] + Expanded(t0, t1, t2, t3, t4, t5, t6)
  }

  const URUC: bytes := [0x55, 0x52, 0x55, 0x43]

  /** The key bits that reach the schedule: four low bytes, one nibble, and two more bytes. */
  type Seed = s: bytes | |s| == 7 && s[4] < 16 witness [0, 0, 0, 0, 0, 0, 0]

  function SeedOf(key: u64): Seed
  {
    [KeyByte(key, 0), KeyByte(key, 1), KeyByte(key, 2), KeyByte(key, 3),
     KeyByte(key, 4) % 16, KeyByte(key, 5), KeyByte(key, 6)]
  }

  function SeedMask(s: Seed): Mask
  {
    Schedule(s[0], s[1], s[2], Wrap(s[3] as int - 0x34), Wrap(s[4] as int + 0xF9), Xor(s[5], 0x13),
             Wrap(s[6] as int + 0x61))
  }

  function GetMask(key: u64): Masks
  {
    var t := SeedMask(SeedOf(key));
    Masks(
      VideoMask(t, seq(32, i requires 0 <= i < 32 => Xor(t[i], 0xFF))),
      seq(32, i requires 0 <= i < 32 => if i % 2 == 1 then URUC[i / 2 % 4] else Xor(t[i], 0xFF)))
  }

  // ----- the masks, byte by byte

  /** The key without its `i` low bytes. */
  function Dropped(key: nat, i: nat): nat
  {
    if i == 0 then key else Dropped(key / 0x100, i - 1)
  }

  lemma {:induction false} DroppedNext(key: nat, i: nat)
    ensures Dropped(key, i + 1) == Dropped(key, i) / 0x100
  {
    if i > 0 {
      DroppedNext(key / 0x100, i - 1);
    }
  }

  lemma {:induction false} KeyByteAt(key: u64, i: nat)
    ensures KeyByte(key, i) == Dropped(key, i) % 0x100
  {
    if i > 0 {
      KeyByteAt(key / 0x100, i - 1);
    }
  }

  lemma Shifts(n: nat)
    ensures n / 0x100 / 0x100 == n / 0x1_0000 && n / 0x1_0000 / 0x100 == n / 0x100_0000
    ensures n / 0x100_0000 / 0x100 == n / 0x1_0000_0000 && n / 0x1_0000_0000 / 0x100 == n / 0x100_0000_0000
    ensures n / 0x100_0000_0000 / 0x100 == n / 0x1_0000_0000_0000
  {
  }

  lemma Start(key: nat)
    ensures Dropped(key, 0) == key
  {
  }

  lemma KeyBytes(key: u64)
    ensures KeyByte(key, 0) == key % 0x100 && KeyByte(key, 1) == key / 0x100 % 0x100
    ensures KeyByte(key, 2) == key / 0x1_0000 % 0x100 && KeyByte(key, 3) == key / 0x100_0000 % 0x100
    ensures KeyByte(key, 4) == key / 0x1_0000_0000 % 0x100 && KeyByte(key, 5) == key / 0x100_0000_0000 % 0x100
    ensures KeyByte(key, 6) == key / 0x1_0000_0000_0000 % 0x100
  {
    hide KeyByte, Dropped;
    Start(key);
    Shifts(key);
    forall i: nat | i < 7 ensures KeyByte(key, i) == Dropped(key, i) % 0x100 {
      KeyByteAt(key, i);
    }
    DroppedNext(key, 0);
    DroppedNext(key, 1);
    DroppedNext(key, 2);
    DroppedNext(key, 3);
    DroppedNext(key, 4);
    DroppedNext(key, 5);
  }

  /** The seven bytes that open the mask, from the bytes of the key. */
  lemma MaskOpens(key: u64)
    ensures var t := GetMask(key).video.head;
      && t[0] == key % 0x100 && t[1] == key / 0x100 % 0x100 && t[2] == key / 0x1_0000 % 0x100
      && t[3] == (key / 0x100_0000 % 0x100 - 0x34) % 0x100
      && t[4] == (key / 0x1_0000_0000 % 0x10 + 0xF9) % 0x100
      && t[5] == Xor(key / 0x100_0000_0000 % 0x100, 0x13)
      && t[6] == (key / 0x1_0000_0000_0000 % 0x100 + 0x61) % 0x100
  {
    hide KeyByte, Schedule, Xor, Expanded;
    KeyBytes(key);
    var s := SeedOf(key);
    SeedBytes(SeedMask(s), s);
    FrontBytes(SeedMask(s));
    LowNibble(key / 0x1_0000_0000);
    hide SeedMask;
  }

  lemma LowNibble(n: nat)
    ensures n % 0x100 % 0x10 == n % 0x10
  {
  }

  lemma FrontBytes(t: Mask)
    ensures forall i :: 0 <= i < 7 ==> t[..7][i] == t[i]
  {
  }

  /** How each byte follows from the ones before it. */
  predicate Follows(t: Mask)
  {
    && t[7] == Xor(t[0], 0xFF) && t[8] == Wrap(t[2] as int + t[1] as int) && t[9] == Wrap(t[1] as int - t[7] as int)
    && t[10] == Xor(t[2], 0xFF) && t[11] == Xor(t[1], 0xFF) && t[12] == Wrap(t[11] as int + t[9] as int)
    && t[13] == Wrap(t[8] as int - t[3] as int) && t[14] == Xor(t[13], 0xFF)
    && t[15] == Wrap(t[10] as int - t[11] as int) && t[16] == Wrap(t[8] as int - t[15] as int)
    && t[17] == Xor(t[16], t[7]) && t[18] == Xor(t[15], 0xFF) && t[19] == Xor(t[3], 0x10)
    && t[20] == Wrap(t[4] as int - 0x32) && t[21] == Wrap(t[5] as int + 0xED) && t[22] == Xor(t[6], 0xF3)
    && t[23] == Wrap(t[19] as int - t[15] as int) && t[24] == Wrap(t[21] as int + t[7] as int)
    && t[25] == Wrap(0x21 - t[19] as int) && t[26] == Xor(t[20], t[23]) && t[27] == Wrap(t[22] as int + t[22] as int)
    && t[28] == Wrap(t[23] as int + 0x44) && t[29] == Wrap(t[3] as int + t[4] as int)
    && t[30] == Wrap(t[5] as int - t[22] as int) && t[31] == Xor(t[29], t[19])
  }

  lemma ScheduleFollows(t0: byte, t1: byte, t2: byte, t3: byte, t4: byte, t5: byte, t6: byte)
    ensures Follows(Schedule(t0, t1, t2, t3, t4, t5, t6))
  {
    hide Xor, Wrap;
  }

  lemma SumsAndDifferences(a: byte, b: byte, c: byte)
    ensures Wrap(b as int - (0xFF - a as int)) == (a as int + b as int + 1) % 0x100
    ensures Wrap((0xFF - b as int) + (a as int + b as int + 1) % 0x100) == a
    ensures Wrap((0xFF - c as int) - (0xFF - b as int)) == (b as int - c as int) % 0x100
  {
  }

  lemma SumMinus(b: byte, c: byte, d: byte)
    ensures Wrap((b as int + c as int) % 0x100 - d as int) == (b as int + c as int - d as int) % 0x100
    ensures Wrap((b as int + c as int) % 0x100 - (b as int - c as int) % 0x100) == 2 * c as int % 0x100
  {
    var s, m := b as int + c as int, b as int - c as int;
    var i, j := if s < 0x100 then 0 else -1, if m >= 0 then 0 else 1;
    Shifted(s, i);
    Shifted(m, j);
    assert s % 0x100 == s + 0x100 * i && m % 0x100 == m + 0x100 * j;
    Shifted(s - d as int, i);
    Shifted(2 * c as int, i - j);
  }

  lemma Shifted(n: int, k: int)
    ensures (n + 0x100 * k) % 0x100 == n % 0x100
  {
  }

  lemma SumWithComplement(a: byte, f: byte)
    ensures Wrap((f as int + 0xED) % 0x100 + (0xFF - a as int)) == (f as int - a as int + 0xEC) % 0x100
  {
  }

  /** Up to the sixteenth byte: only sums, differences and complements of the first three bytes and the fourth. */
  lemma MaskContinues(key: u64)
    ensures var t := GetMask(key).video.head;
      && t[7] == 0xFF - t[0] && t[8] == (t[1] as int + t[2] as int) % 0x100
      && t[9] == (t[0] as int + t[1] as int + 1) % 0x100
      && t[10] == 0xFF - t[2] && t[11] == 0xFF - t[1] && t[12] == t[0]
      && t[13] == (t[1] as int + t[2] as int - t[3] as int) % 0x100 && t[14] == 0xFF - t[13]
      && t[15] == (t[1] as int - t[2] as int) % 0x100 && t[16] == 2 * t[2] as int % 0x100
  {
    hide Xor, GetMask;
    HeadFollows(key);
    HeadIs(GetMask(key).video.head);
  }

  /** The bytes that depend on the fourth to seventh: two sums are mixed by an exclusive or. */
  lemma MaskEnds(key: u64)
    ensures var t := GetMask(key).video.head;
      && t[17] == Xor(t[16], 0xFF - t[0]) && t[18] == 0xFF - t[15] && t[19] == Xor(t[3], 0x10)
      && t[20] == (t[4] as int - 0x32) % 0x100 && t[21] == (t[5] as int + 0xED) % 0x100 && t[22] == Xor(t[6], 0xF3)
      && t[23] == (t[19] as int - t[15] as int) % 0x100 && t[24] == (t[5] as int - t[0] as int + 0xEC) % 0x100
      && t[25] == (0x21 - t[19] as int) % 0x100 && t[26] == Xor(t[20], t[23]) && t[27] == 2 * t[22] as int % 0x100
      && t[28] == (t[23] as int + 0x44) % 0x100 && t[29] == (t[3] as int + t[4] as int) % 0x100
      && t[30] == (t[5] as int - t[22] as int) % 0x100 && t[31] == Xor(t[29], t[19])
  {
    hide Xor, GetMask;
    HeadFollows(key);
    TailIs(GetMask(key).video.head);
  }

  lemma TailIs(t: Mask)
    requires Follows(t)
    ensures && t[17] == Xor(t[16], 0xFF - t[0]) && t[18] == 0xFF - t[15] && t[19] == Xor(t[3], 0x10)
      && t[20] == (t[4] as int - 0x32) % 0x100 && t[21] == (t[5] as int + 0xED) % 0x100 && t[22] == Xor(t[6], 0xF3)
      && t[23] == (t[19] as int - t[15] as int) % 0x100 && t[24] == (t[5] as int - t[0] as int + 0xEC) % 0x100
      && t[25] == (0x21 - t[19] as int) % 0x100 && t[26] == Xor(t[20], t[23]) && t[27] == 2 * t[22] as int % 0x100
      && t[28] == (t[23] as int + 0x44) % 0x100 && t[29] == (t[3] as int + t[4] as int) % 0x100
      && t[30] == (t[5] as int - t[22] as int) % 0x100 && t[31] == Xor(t[29], t[19])
  {
    hide Xor;
    XorComplement(t[0]);
    XorComplement(t[15]);
    assert t[21] == Wrap(t[5] as int + 0xED) == (t[5] as int + 0xED) % 0x100;
    SumWithComplement(t[0], t[5]);
    assert t[24] == (t[5] as int - t[0] as int + 0xEC) % 0x100;
    assert t[22] as int + t[22] as int == 2 * t[22] as int;
  }

  lemma HeadIs(t: Mask)
    requires Follows(t)
    ensures && t[7] == 0xFF - t[0] && t[8] == (t[1] as int + t[2] as int) % 0x100
      && t[9] == (t[0] as int + t[1] as int + 1) % 0x100
      && t[10] == 0xFF - t[2] && t[11] == 0xFF - t[1] && t[12] == t[0]
      && t[13] == (t[1] as int + t[2] as int - t[3] as int) % 0x100 && t[14] == 0xFF - t[13]
      && t[15] == (t[1] as int - t[2] as int) % 0x100 && t[16] == 2 * t[2] as int % 0x100
  {
    hide Xor;
    XorComplement(t[0]);
    XorComplement(t[1]);
    XorComplement(t[2]);
    XorComplement(t[13]);
    assert t[8] == Wrap(t[2] as int + t[1] as int) == (t[1] as int + t[2] as int) % 0x100;
    hide Wrap;
    SumsAndDifferences(t[0], t[1], t[2]);
    SumMinus(t[1], t[2], t[3]);
  }

  lemma HeadFollows(key: u64)
    ensures Follows(GetMask(key).video.head)
  {
    hide Follows, Xor, Wrap, Expanded, SeedOf;
    var s := SeedOf(key);
    ScheduleFollows(s[0], s[1], s[2], Wrap(s[3] as int - 0x34), Wrap(s[4] as int + 0xF9), Xor(s[5], 0x13),
      Wrap(s[6] as int + 0x61));
  }

  /** The second video mask is the complement of the first; the audio mask has the four letters URUC at odd places. */
  lemma MaskFollows(key: u64, i: nat)
    requires i < 32
    ensures var m := GetMask(key);
      && m.video.bulk[i] == 0xFF - m.video.head[i]
      && (i % 2 == 0 ==> m.audio[i] == 0xFF - m.video.head[i])
      && (i % 8 == 1 || i % 8 == 5 ==> m.audio[i] == 0x55)
      && (i % 8 == 3 ==> m.audio[i] == 0x52) && (i % 8 == 7 ==> m.audio[i] == 0x43)
  {
    hide Xor, SeedMask, SeedOf;
    XorComplement(GetMask(key).video.head[i]);
  }

  lemma SeedBytes(t: Mask, s: Seed)
    requires t == SeedMask(s)
    ensures t[..7] == [s[0], s[1], s[2], Wrap(s[3] as int - 0x34), Wrap(s[4] as int + 0xF9), Xor(s[5], 0x13),
                       Wrap(s[6] as int + 0x61)]
  {
  }

  lemma SeedMaskInjective(a: Seed, b: Seed)
    requires SeedMask(a) == SeedMask(b)
    ensures a == b
  {
    SeedBytes(SeedMask(a), a);
    SeedBytes(SeedMask(b), b);
    SeedCompare(SeedMask(a)[..7], a, b);
  }

  lemma SeedCompare(t: bytes, a: Seed, b: Seed)
    requires t == [a[0], a[1], a[2], Wrap(a[3] as int - 0x34), Wrap(a[4] as int + 0xF9), Xor(a[5], 0x13),
                   Wrap(a[6] as int + 0x61)]
    requires t == [b[0], b[1], b[2], Wrap(b[3] as int - 0x34), Wrap(b[4] as int + 0xF9), Xor(b[5], 0x13),
                   Wrap(b[6] as int + 0x61)]
    ensures a == b
  {
    hide Xor;
    assert t[5] == Xor(a[5], 0x13) == Xor(b[5], 0x13);
    XorCancel(a[5], 0x13);
    XorCancel(b[5], 0x13);
    assert t[3] == Wrap(a[3] as int - 0x34) == Wrap(b[3] as int - 0x34);
    WrapInjective(a[3], b[3], -0x34);
    assert t[4] == Wrap(a[4] as int + 0xF9) == Wrap(b[4] as int + 0xF9);
    WrapInjective(a[4], b[4], 0xF9);
    assert t[6] == Wrap(a[6] as int + 0x61) == Wrap(b[6] as int + 0x61);
    WrapInjective(a[6], b[6], 0x61);
    assert a[0] == t[0] == b[0] && a[1] == t[1] == b[1] && a[2] == t[2] == b[2];
  }

  lemma WrapInjective(a: byte, b: byte, k: int)
    ensures Wrap(a + k) == Wrap(b + k) ==> a == b
  {
    assert (a + k) - (b + k) == a - b;
  }

  /** Two keys give the same masks exactly when they agree on the 52 bits of the seed. */
  lemma SameMasks(a: u64, b: u64)
    ensures GetMask(a) == GetMask(b) <==> SeedOf(a) == SeedOf(b)
  {
    if GetMask(a) == GetMask(b) {
      assert GetMask(a).video.head == SeedMask(SeedOf(a)) && GetMask(b).video.head == SeedMask(SeedOf(b));
      SeedMaskInjective(SeedOf(a), SeedOf(b));
    }
  }

  // ----- the reference loop, one byte at a time

  datatype Loop = Loop(buf: bytes, mask: Mask)

  function BulkStep(st: Loop, vm: Mask, p: nat): (r: Loop)
    requires p < |st.buf|
    ensures |r.buf| == |st.buf|
  {
    var b := Xor(st.buf[p], st.mask[p % 32]);
    Loop(st.buf[p := b], st.mask[p % 32 := Xor(b, vm[p % 32])])
  }

  /** The state of the bulk loop once the bytes before position `n` are done. */
  function BulkLoop(buf: bytes, vm: Mask, n: nat): (r: Loop)
    requires BULK <= n <= |buf|
    ensures |r.buf| == |buf|
  {
    if n == BULK then Loop(buf, vm) else BulkStep(BulkLoop(buf, vm, n - 1), vm, n - 1)
  }

  function HeadStep(st: Loop, i: nat): (r: Loop)
    requires i < HEAD_LEN && MIN_VIDEO <= |st.buf|
    ensures |r.buf| == |st.buf|
  {
    var m := Xor(st.mask[i % 32], st.buf[BULK + i]);
    Loop(st.buf[HEAD + i := Xor(st.buf[HEAD + i], m)], st.mask[i % 32 := m])
  }

  /** The state of the head loop after `n` of its bytes. */
  function HeadLoop(buf: bytes, vm: Mask, n: nat): (r: Loop)
    requires n <= HEAD_LEN && MIN_VIDEO <= |buf|
    ensures |r.buf| == |buf|
  {
    if n == 0 then Loop(buf, vm) else HeadStep(HeadLoop(buf, vm, n - 1), n - 1)
  }

  function Demask(buf: bytes, vm: VideoMask): (r: bytes)
    ensures |r| == |buf|
  {
    if |buf| < MIN_VIDEO then buf
    else HeadLoop(BulkLoop(buf, vm.bulk, |buf|).buf, vm.head, HEAD_LEN).buf
  }

  // ----- the in-place routines

  lemma Lane(at: nat, j: nat)
    requires at % 32 == 0 && j < 32
    ensures (at + j) % 32 == j
  {
  }

  lemma BulkNext(was: bytes, b: bytes, m: Mask, vm: Mask, p: nat, j: nat)
    requires j < 32 && BULK <= p < |was| == |b| && p % 32 == j
    requires BulkLoop(was, vm, p) == Loop(b, m)
    ensures var x := Xor(b[p], m[j]); BulkLoop(was, vm, p + 1) == Loop(b[p := x], m[j := Xor(x, vm[j])])
  {
    hide Xor;
  }

  /** One row, or the incomplete last row: lane `j` of the mask meets byte `at + j`. */
  method BulkRow(buf: array<byte>, at: nat, n: nat, mask: Mask, vm: Mask, ghost was: bytes) returns (next: Mask)
    requires n <= 32 && BULK <= at && at % 32 == 0 && at + n <= buf.Length == |was|
    requires Loop(buf[..], mask) == BulkLoop(was, vm, at)
    modifies buf
    ensures Loop(buf[..], next) == BulkLoop(was, vm, at + n)
  {
    hide Xor, BulkLoop;
    next := mask;
    for j := 0 to n
      invariant Loop(buf[..], next) == BulkLoop(was, vm, at + j)
    {
      ghost var before := buf[..];
      var p := at + j;
      Lane(at, j);
      BulkNext(was, before, next, vm, p, j);
      buf[p] := Xor(buf[p], next[j]);
      next := next[j := Xor(buf[p], vm[j])];
      assert buf[..] == before[p := buf[p]];
    }
  }

  lemma BulkStarts(was: bytes, vm: Mask)
    requires BULK <= |was|
    ensures Loop(was, vm) == BulkLoop(was, vm, BULK)
  {
  }

  /** The bulk region: whole 32-byte rows first, then the incomplete last row. */
  method MaskRows(buf: array<byte>, vm: Mask)
    requires BULK <= buf.Length
    modifies buf
    ensures buf[..] == BulkLoop(old(buf[..]), vm, buf.Length).buf
  {
    hide Xor, BulkLoop;
    ghost var was := buf[..];
    var mask, region := vm, buf.Length - BULK;
    var rows := region / 32;
    BulkStarts(was, vm);
    for row := 0 to rows
      invariant Loop(buf[..], mask) == BulkLoop(was, vm, BULK + row * 32)
    {
      mask := BulkRow(buf, BULK + row * 32, 32, mask, vm, was);
    }
    mask := BulkRow(buf, BULK + rows * 32, region % 32, mask, vm, was);
  }

  /** Row-chunked demasking: the bulk region, then the head. */
  method MaskVideo(buf: array<byte>, vm: VideoMask)
    modifies buf
    ensures buf[..] == Demask(old(buf[..]), vm)
  {
    hide Xor, BulkLoop, HeadLoop;
    if buf.Length < MIN_VIDEO {
      return;
    }
    MaskRows(buf, vm.bulk);
    MaskHead(buf, vm.head);
  }

  /** The scalar first pass over the 256 bytes before the bulk region. */
  method MaskHead(buf: array<byte>, vm: Mask)
    requires MIN_VIDEO <= buf.Length
    modifies buf
    ensures buf[..] == HeadLoop(old(buf[..]), vm, HEAD_LEN).buf
  {
    hide Xor;
    var mask := vm;
    for i := 0 to HEAD_LEN
      invariant Loop(buf[..], mask) == HeadLoop(old(buf[..]), vm, i)
    {
      ghost var before := buf[..];
      var v := buf[BULK + i];
      var l := i % 32;
      mask := mask[l := Xor(mask[l], v)];
      buf[HEAD + i] := Xor(buf[HEAD + i], mask[l]);
      assert buf[..] == before[HEAD + i := buf[HEAD + i]];
    }
  }

  function DemaskAudio(buf: bytes, am: Mask): (r: bytes)
    ensures |r| == |buf|
    ensures forall p :: 0 <= p < |buf| ==> r[p] == if p < BULK then buf[p] else Xor(buf[p], am[p % 32])
  {
    seq(|buf|, p requires 0 <= p < |buf| => if p < BULK then buf[p] else Xor(buf[p], am[p % 32]))
  }

  method MaskAudio(buf: array<byte>, am: Mask)
    modifies buf
    ensures buf[..] == DemaskAudio(old(buf[..]), am)
  {
    hide Xor;
    if buf.Length < BULK {
      return;
    }
    var rows := (buf.Length - BULK) / 32;
    var row := 0;
    while row < rows
      invariant 0 <= row <= rows
      invariant forall p :: 0 <= p < buf.Length ==>
        buf[p] == if BULK <= p < BULK + row * 32 then Xor(old(buf[p]), am[p % 32]) else old(buf[p])
    {
      for j := 0 to 32
        invariant forall p :: 0 <= p < buf.Length ==>
          buf[p] == if BULK <= p < BULK + row * 32 + j then Xor(old(buf[p]), am[p % 32]) else old(buf[p])
      {
        var at := BULK + row * 32 + j;
        assert at % 32 == j;
        buf[at] := Xor(buf[at], am[j]);
      }
      row := row + 1;
    }
    for j := 0 to (buf.Length - BULK) % 32
      invariant forall p :: 0 <= p < buf.Length ==>
        buf[p] == if BULK <= p < BULK + rows * 32 + j then Xor(old(buf[p]), am[p % 32]) else old(buf[p])
    {
      var at := BULK + rows * 32 + j;
      assert at % 32 == j;
      buf[at] := Xor(buf[at], am[j]);
    }
  }

  lemma AudioInvolution(buf: bytes, am: Mask)
    ensures DemaskAudio(DemaskAudio(buf, am), am) == buf
  {
    hide Xor;
    forall p | BULK <= p < |buf| ensures Xor(Xor(buf[p], am[p % 32]), am[p % 32]) == buf[p] {
      XorCancel(buf[p], am[p % 32]);
    }
  }

  // ----- what the loops compute, byte by byte

  /** The mask byte that the bulk pass uses at `p`: derived from the decoded byte one row up. */
  function BulkMask(clear: bytes, vm: Mask, p: nat): byte
    requires BULK <= p < |clear| + 32
  {
    if p < BULK + 32 then vm[p % 32] else Xor(clear[p - 32], vm[p % 32])
  }

  /** The mask byte of the head pass: a running exclusive or down one column of the decoded bulk. */
  function HeadMask(clear: bytes, vm: Mask, i: nat): byte
    requires i < HEAD_LEN && MIN_VIDEO <= |clear|
  {
    Xor(if i < 32 then vm[i] else HeadMask(clear, vm, i - 32), clear[BULK + i])
  }

  /** The bytes before `n` are decoded, the rest untouched, and every lane holds the mask of its next byte. */
  ghost predicate BulkDone(buf: bytes, r: Loop, vm: Mask, n: nat)
    requires BULK <= n <= |buf| == |r.buf|
  {
    && (forall p :: 0 <= p < |buf| && !(BULK <= p < n) ==> r.buf[p] == buf[p])
    && (forall p :: BULK <= p < n ==> r.buf[p] == Xor(buf[p], BulkMask(r.buf, vm, p)))
    && (forall p :: n <= p < n + 32 ==> r.mask[p % 32] == BulkMask(r.buf, vm, p))
  }

  lemma {:induction false} BulkLoopBytes(buf: bytes, vm: Mask, n: nat)
    requires BULK <= n <= |buf|
    ensures BulkDone(buf, BulkLoop(buf, vm, n), vm, n)
  {
    hide Xor;
    if n > BULK {
      BulkLoopBytes(buf, vm, n - 1);
      BulkStepBytes(buf, BulkLoop(buf, vm, n - 1), vm, n - 1);
    }
  }

  /** What one more byte of the bulk loop does to the facts about the bytes before it. */
  lemma BulkStepBytes(buf: bytes, prev: Loop, vm: Mask, n: nat)
    requires BULK <= n < |buf| == |prev.buf|
    requires BulkDone(buf, prev, vm, n)
    ensures BulkDone(buf, BulkStep(prev, vm, n), vm, n + 1)
  {
    hide Xor;
    var r := BulkStep(prev, vm, n);
    forall p | BULK <= p < n + 32 ensures BulkMask(r.buf, vm, p) == BulkMask(prev.buf, vm, p) {
      BulkMaskLocal(prev.buf, r.buf, vm, p, n);
    }
    forall p | n + 1 <= p < n + 1 + 32 ensures r.mask[p % 32] == BulkMask(r.buf, vm, p) {
      BulkStepMask(buf, prev, vm, n, p);
    }
    hide BulkMask;
  }

  /** The mask at `p` looks at the byte one row up alone. */
  lemma BulkMaskLocal(a: bytes, b: bytes, vm: Mask, p: nat, n: nat)
    requires BULK <= n < |a| == |b| && BULK <= p < n + 32 && forall q :: 0 <= q < |a| && q != n ==> a[q] == b[q]
    ensures BulkMask(b, vm, p) == BulkMask(a, vm, p)
  {
    hide Xor;
  }

  lemma BulkStepMask(buf: bytes, prev: Loop, vm: Mask, n: nat, p: nat)
    requires BULK <= n < |buf| == |prev.buf| && BulkDone(buf, prev, vm, n) && n + 1 <= p < n + 33
    ensures BulkStep(prev, vm, n).mask[p % 32] == BulkMask(BulkStep(prev, vm, n).buf, vm, p)
  {
    hide Xor;
    var r := BulkStep(prev, vm, n);
    if p < n + 32 {
      OtherLane(p, n);
      BulkMaskLocal(prev.buf, r.buf, vm, p, n);
      assert r.mask[p % 32] == prev.mask[p % 32];
    } else {
      assert p == n + 32 && p % 32 == n % 32;
    }
  }

  lemma OtherLane(p: nat, n: nat)
    requires n < p < n + 32
    ensures p % 32 != n % 32
  {
  }

  ghost predicate HeadDone(buf: bytes, r: Loop, vm: Mask, n: nat)
    requires n <= HEAD_LEN && MIN_VIDEO <= |buf| == |r.buf|
  {
    && (forall p :: 0 <= p < |buf| && !(HEAD <= p < HEAD + n) ==> r.buf[p] == buf[p])
    && (forall i :: 0 <= i < n ==> r.buf[HEAD + i] == Xor(buf[HEAD + i], HeadMask(buf, vm, i)))
    && (forall i :: n <= i < n + 32 ==> r.mask[i % 32] == if i < 32 then vm[i] else HeadMask(buf, vm, i - 32))
  }

  lemma {:induction false} HeadLoopBytes(buf: bytes, vm: Mask, n: nat)
    requires n <= HEAD_LEN && MIN_VIDEO <= |buf|
    ensures HeadDone(buf, HeadLoop(buf, vm, n), vm, n)
  {
    if n > 0 {
      HeadLoopBytes(buf, vm, n - 1);
      HeadStepBytes(buf, HeadLoop(buf, vm, n - 1), vm, n - 1);
    }
  }

  lemma HeadStepBytes(buf: bytes, prev: Loop, vm: Mask, n: nat)
    requires n < HEAD_LEN && MIN_VIDEO <= |buf| == |prev.buf|
    requires HeadDone(buf, prev, vm, n)
    ensures HeadDone(buf, HeadStep(prev, n), vm, n + 1)
  {
    hide Xor;
    var r := HeadStep(prev, n);
    assert prev.mask[n % 32] == if n < 32 then vm[n] else HeadMask(buf, vm, n - 32);
    assert r.mask[n % 32] == HeadMask(buf, vm, n);
    forall i | n + 1 <= i < n + 1 + 32
      ensures r.mask[i % 32] == if i < 32 then vm[i] else HeadMask(buf, vm, i - 32)
    {
      if i < n + 32 {
        assert i % 32 != n % 32;
        assert prev.mask[i % 32] == if i < 32 then vm[i] else HeadMask(buf, vm, i - 32);
      } else {
        assert i % 32 == n % 32;
      }
    }
  }

  /** A closed description of the decoded payload, and the parts that stay in clear. */
  lemma DemaskBytes(buf: bytes, vm: VideoMask)
    ensures var r := Demask(buf, vm);
      && (|buf| < MIN_VIDEO ==> r == buf)
      && (forall p :: 0 <= p < |buf| && p < HEAD ==> r[p] == buf[p])
      && (|buf| >= MIN_VIDEO ==>
            && (forall p :: BULK <= p < |buf| ==> r[p] == Xor(buf[p], BulkMask(r, vm.bulk, p)))
            && (forall i :: 0 <= i < HEAD_LEN ==>
                  r[HEAD + i] == Xor(buf[HEAD + i], HeadMask(r, vm.head, i))))
  {
    hide Xor;
    if |buf| >= MIN_VIDEO {
      var bulk := BulkLoop(buf, vm.bulk, |buf|).buf;
      var r := Demask(buf, vm);
      BulkLoopBytes(buf, vm.bulk, |buf|);
      HeadLoopBytes(bulk, vm.head, HEAD_LEN);
      assert forall p :: BULK <= p < |buf| ==> r[p] == bulk[p];
      forall i | 0 <= i < HEAD_LEN ensures HeadMask(r, vm.head, i) == HeadMask(bulk, vm.head, i) {
        HeadMaskLocal(r, bulk, vm.head, i);
      }
      forall i | 0 <= i < HEAD_LEN ensures r[HEAD + i] == Xor(buf[HEAD + i], HeadMask(r, vm.head, i)) {}
    }
  }

  /** The head masks only look at the bulk region. */
  lemma {:induction false} HeadMaskLocal(a: bytes, b: bytes, vm: Mask, i: nat)
    requires i < HEAD_LEN && MIN_VIDEO <= |a| == |b|
    requires forall p :: BULK <= p < |a| ==> a[p] == b[p]
    ensures HeadMask(a, vm, i) == HeadMask(b, vm, i)
  {
    hide Xor;
    if i >= 32 {
      HeadMaskLocal(a, b, vm, i - 32);
    }
  }

  // ----- the encoder and the two round trips

  function RemaskByte(clear: bytes, vm: VideoMask, p: nat): byte
    requires p < |clear| && MIN_VIDEO <= |clear|
  {
    if p < HEAD then clear[p]
    else if p < BULK then Xor(clear[p], HeadMask(clear, vm.head, p - HEAD))
    else Xor(clear[p], BulkMask(clear, vm.bulk, p))
  }

  /** Mask a clear payload: every mask byte is a function of the clear bytes alone. */
  function Remask(clear: bytes, vm: VideoMask): (r: bytes)
    ensures |r| == |clear|
  {
    if |clear| < MIN_VIDEO then clear else seq(|clear|, p requires 0 <= p < |clear| => RemaskByte(clear, vm, p))
  }

  lemma RemaskDemask(buf: bytes, vm: VideoMask)
    ensures Remask(Demask(buf, vm), vm) == buf
  {
    hide Xor;
    var r := Demask(buf, vm);
    DemaskBytes(buf, vm);
    if |buf| >= MIN_VIDEO {
      forall p | 0 <= p < |buf| ensures Remask(r, vm)[p] == buf[p] {
        if HEAD <= p < BULK {
          assert r[HEAD + (p - HEAD)] == Xor(buf[p], HeadMask(r, vm.head, p - HEAD));
          XorCancel(buf[p], HeadMask(r, vm.head, p - HEAD));
        } else if BULK <= p {
          XorCancel(buf[p], BulkMask(r, vm.bulk, p));
        }
      }
    }
  }

  lemma DemaskRemask(clear: bytes, vm: VideoMask)
    ensures Demask(Remask(clear, vm), vm) == clear
  {
    hide Xor;
    if |clear| >= MIN_VIDEO {
      var s := Remask(clear, vm);
      var r := Demask(s, vm);
      DemaskBytes(s, vm);
      forall p | BULK <= p < |clear| ensures r[p] == clear[p] {
        BulkAgrees(clear, s, r, vm, p);
      }
      forall p | 0 <= p < |clear| ensures r[p] == clear[p] {
        if HEAD <= p < BULK {
          HeadMaskLocal(r, clear, vm.head, p - HEAD);
          assert r[HEAD + (p - HEAD)] == Xor(s[p], HeadMask(r, vm.head, p - HEAD));
          XorCancel(clear[p], HeadMask(clear, vm.head, p - HEAD));
        }
      }
    }
  }

  lemma {:induction false} BulkAgrees(clear: bytes, s: bytes, r: bytes, vm: VideoMask, p: nat)
    requires MIN_VIDEO <= |clear| == |s| == |r| && BULK <= p < |clear|
    requires s == Remask(clear, vm)
    requires forall q :: BULK <= q < |clear| ==> r[q] == Xor(s[q], BulkMask(r, vm.bulk, q))
    ensures r[p] == clear[p]
  {
    hide Xor;
    if p >= BULK + 32 {
      BulkAgrees(clear, s, r, vm, p - 32);
    }
    XorCancel(clear[p], BulkMask(clear, vm.bulk, p));
  }

  /** Different masked payloads never decode alike. */
  lemma DemaskInjective(a: bytes, b: bytes, vm: VideoMask)
    ensures Demask(a, vm) == Demask(b, vm) <==> a == b
  {
    RemaskDemask(a, vm);
    RemaskDemask(b, vm);
  }
}
