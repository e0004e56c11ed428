/** The PRESENT block cipher of prim_cipher_pkg.sv and prim_present.sv: its layers, its key schedules
    and its rounds, unrolled or iterated. */
module Present {
  import opened Bits
  import opened Sbox

  // ---------------------------------------------------------------- permutation tables

  /** PRESENT_PERM32 */
  function Perm32(k: nat): nat {
    match k
    case 0 => 0 case 1 => 8 case 2 => 16 case 3 => 24 case 4 => 1 case 5 => 9 case 6 => 17 case 7 => 25
    case 8 => 2 case 9 => 10 case 10 => 18 case 11 => 26 case 12 => 3 case 13 => 11 case 14 => 19
    case 15 => 27 case 16 => 4 case 17 => 12 case 18 => 20 case 19 => 28 case 20 => 5 case 21 => 13
    case 22 => 21 case 23 => 29 case 24 => 6 case 25 => 14 case 26 => 22 case 27 => 30 case 28 => 7
    case 29 => 15 case 30 => 23 case _ => 31
  }

  /** PRESENT_PERM32_INV */
  function Perm32Inv(k: nat): nat {
    match k
    case 0 => 0 case 1 => 4 case 2 => 8 case 3 => 12 case 4 => 16 case 5 => 20 case 6 => 24 case 7 => 28
    case 8 => 1 case 9 => 5 case 10 => 9 case 11 => 13 case 12 => 17 case 13 => 21 case 14 => 25 case 15 => 29
    case 16 => 2 case 17 => 6 case 18 => 10 case 19 => 14 case 20 => 18 case 21 => 22 case 22 => 26
    case 23 => 30 case 24 => 3 case 25 => 7 case 26 => 11 case 27 => 15 case 28 => 19 case 29 => 23
    case 30 => 27 case _ => 31
  }

  /** PRESENT_PERM64 */
  function Perm64(k: nat): nat {
    match k
    case 0 => 0 case 1 => 16 case 2 => 32 case 3 => 48 case 4 => 1 case 5 => 17 case 6 => 33 case 7 => 49
    case 8 => 2 case 9 => 18 case 10 => 34 case 11 => 50 case 12 => 3 case 13 => 19 case 14 => 35
    case 15 => 51 case 16 => 4 case 17 => 20 case 18 => 36 case 19 => 52 case 20 => 5 case 21 => 21
    case 22 => 37 case 23 => 53 case 24 => 6 case 25 => 22 case 26 => 38 case 27 => 54 case 28 => 7
    case 29 => 23 case 30 => 39 case 31 => 55 case 32 => 8 case 33 => 24 case 34 => 40 case 35 => 56
    case 36 => 9 case 37 => 25 case 38 => 41 case 39 => 57 case 40 => 10 case 41 => 26 case 42 => 42
    case 43 => 58 case 44 => 11 case 45 => 27 case 46 => 43 case 47 => 59 case 48 => 12 case 49 => 28
    case 50 => 44 case 51 => 60 case 52 => 13 case 53 => 29 case 54 => 45 case 55 => 61 case 56 => 14
    case 57 => 30 case 58 => 46 case 59 => 62 case 60 => 15 case 61 => 31 case 62 => 47 case _ => 63
  }

  /** PRESENT_PERM64_INV */
  function Perm64Inv(k: nat): nat {
    match k
    case 0 => 0 case 1 => 4 case 2 => 8 case 3 => 12 case 4 => 16 case 5 => 20 case 6 => 24 case 7 => 28
    case 8 => 32 case 9 => 36 case 10 => 40 case 11 => 44 case 12 => 48 case 13 => 52 case 14 => 56
    case 15 => 60 case 16 => 1 case 17 => 5 case 18 => 9 case 19 => 13 case 20 => 17 case 21 => 21
    case 22 => 25 case 23 => 29 case 24 => 33 case 25 => 37 case 26 => 41 case 27 => 45 case 28 => 49
    case 29 => 53 case 30 => 57 case 31 => 61 case 32 => 2 case 33 => 6 case 34 => 10 case 35 => 14
    case 36 => 18 case 37 => 22 case 38 => 26 case 39 => 30 case 40 => 34 case 41 => 38 case 42 => 42
    case 43 => 46 case 44 => 50 case 45 => 54 case 46 => 58 case 47 => 62 case 48 => 3 case 49 => 7
    case 50 => 11 case 51 => 15 case 52 => 19 case 53 => 23 case 54 => 27 case 55 => 31 case 56 => 35
    case 57 => 39 case 58 => 43 case 59 => 47 case 60 => 51 case 61 => 55 case 62 => 59 case _ => 63
  }

  /** The table that a direction of the cipher uses for data of this width. */
  function PermTable(width: nat, inv: bool): nat -> nat {
    if width == 32 then (if inv then Perm32Inv else Perm32) else (if inv then Perm64Inv else Perm64)
  }

  lemma Perm32Inverse(k: nat)
    requires k < 32
    ensures Perm32(k) < 32 && Perm32Inv(Perm32(k)) == k
  {
    match k
    case 0 => case 1 => case 2 => case 3 => case 4 => case 5 => case 6 => case 7 => case 8 => case 9 =>
    case 10 => case 11 => case 12 => case 13 => case 14 => case 15 => case 16 => case 17 => case 18 =>
    case 19 => case 20 => case 21 => case 22 => case 23 => case 24 => case 25 => case 26 => case 27 =>
    case 28 => case 29 => case 30 => case _ =>
  }

  lemma Perm32InvInverse(k: nat)
    requires k < 32
    ensures Perm32Inv(k) < 32 && Perm32(Perm32Inv(k)) == k
  {
    match k
    case 0 => case 1 => case 2 => case 3 => case 4 => case 5 => case 6 => case 7 => case 8 => case 9 =>
    case 10 => case 11 => case 12 => case 13 => case 14 => case 15 => case 16 => case 17 => case 18 =>
    case 19 => case 20 => case 21 => case 22 => case 23 => case 24 => case 25 => case 26 => case 27 =>
    case 28 => case 29 => case 30 => case _ =>
  }

  lemma Perm64Inverse(k: nat)
    requires k < 64
    ensures Perm64(k) < 64 && Perm64Inv(Perm64(k)) == k
  {
    if k < 32 { Perm64InverseLow(k); } else { Perm64InverseHigh(k); }
  }

  lemma Perm64InverseLow(k: nat)
    requires k < 32
    ensures Perm64(k) < 64 && Perm64Inv(Perm64(k)) == k
  {
    match k
    case 0 => case 1 => case 2 => case 3 => case 4 => case 5 => case 6 => case 7 => case 8 => case 9 =>
    case 10 => case 11 => case 12 => case 13 => case 14 => case 15 => case 16 => case 17 => case 18 =>
    case 19 => case 20 => case 21 => case 22 => case 23 => case 24 => case 25 => case 26 => case 27 =>
    case 28 => case 29 => case 30 => case _ =>
  }

  lemma Perm64InverseHigh(k: nat)
    requires 32 <= k < 64
    ensures Perm64(k) < 64 && Perm64Inv(Perm64(k)) == k
  {
    match k
    case 32 => case 33 => case 34 => case 35 => case 36 => case 37 => case 38 => case 39 => case 40 =>
    case 41 => case 42 => case 43 => case 44 => case 45 => case 46 => case 47 => case 48 => case 49 =>
    case 50 => case 51 => case 52 => case 53 => case 54 => case 55 => case 56 => case 57 => case 58 =>
    case 59 => case 60 => case 61 => case 62 => case _ =>
  }

  lemma Perm64InvInverse(k: nat)
    requires k < 64
    ensures Perm64Inv(k) < 64 && Perm64(Perm64Inv(k)) == k
  {
    if k < 32 { Perm64InvInverseLow(k); } else { Perm64InvInverseHigh(k); }
  }

  lemma Perm64InvInverseLow(k: nat)
    requires k < 32
    ensures Perm64Inv(k) < 64 && Perm64(Perm64Inv(k)) == k
  {
    match k
    case 0 => case 1 => case 2 => case 3 => case 4 => case 5 => case 6 => case 7 => case 8 => case 9 =>
    case 10 => case 11 => case 12 => case 13 => case 14 => case 15 => case 16 => case 17 => case 18 =>
    case 19 => case 20 => case 21 => case 22 => case 23 => case 24 => case 25 => case 26 => case 27 =>
    case 28 => case 29 => case 30 => case _ =>
  }

  lemma Perm64InvInverseHigh(k: nat)
    requires 32 <= k < 64
    ensures Perm64Inv(k) < 64 && Perm64(Perm64Inv(k)) == k
  {
    match k
    case 32 => case 33 => case 34 => case 35 => case 36 => case 37 => case 38 => case 39 => case 40 =>
    case 41 => case 42 => case 43 => case 44 => case 45 => case 46 => case 47 => case 48 => case 49 =>
    case 50 => case 51 => case 52 => case 53 => case 54 => case 55 => case 56 => case 57 => case 58 =>
    case 59 => case 60 => case 61 => case 62 => case _ =>
  }

  /** q undoes p. */
  ghost predicate Undoes(q: nat -> nat, p: nat -> nat, n: nat) {
    forall k: nat | k < n :: p(k) < n && q(p(k)) == k
  }

  /** The tables of the two directions are inverse permutations. */
  lemma TablesInverse(width: nat, inv: bool)
    requires width == 32 || width == 64
    ensures Undoes(PermTable(width, !inv), PermTable(width, inv), width)
  {
    forall k: nat | k < width
      ensures PermTable(width, inv)(k) < width && PermTable(width, !inv)(PermTable(width, inv)(k)) == k
    {
      if width == 32 {
        if inv { Perm32InvInverse(k); } else { Perm32Inverse(k); }
      } else {
        if inv { Perm64InvInverse(k); } else { Perm64Inverse(k); }
      }
    }
  }

  /** The vector whose bit j is bit q(j) of the argument. */
  function Gathered(q: nat -> nat, x: BitVec): (r: BitVec)
    ensures |r| == |x|
  {
    seq(|x|, j requires 0 <= j < |x| => q(j) < |x| && x[q(j)])
  }

  /** perm_32bit and perm_64bit: bit k goes to place p(k). */
  method Permute(x: BitVec, p: nat -> nat, ghost q: nat -> nat) returns (out: BitVec)
    requires Undoes(q, p, |x|) && Undoes(p, q, |x|)
    ensures out == Gathered(q, x)
  {
    out := Zeros(|x|);
    for k := 0 to |x|
      invariant |out| == |x|
      invariant forall j: nat | j < |x| && q(j) < k :: out[j] == x[q(j)]
    {
      out := out[p(k) := x[k]];
    }
  }

  lemma GatheredInverse(p: nat -> nat, q: nat -> nat, x: BitVec)
    requires Undoes(q, p, |x|)
    ensures Gathered(p, Gathered(q, x)) == x
  {
  }

  // ---------------------------------------------------------------- the S-box layer

  /** The S-box layer of two parts is that of the whole when the first part is of whole nibbles. */
  lemma {:induction false} SboxOfCat(table: Nib -> Nib, x: BitVec, y: BitVec)
    requires |x| % 4 == 0
    ensures SboxLayer(table, x + y) == SboxLayer(table, x) + SboxLayer(table, y)
    decreases |x|
  {
    if x == [] {
      assert x + y == y;
    } else {
      assert (x + y)[..4] == x[..4] && (x + y)[4..] == x[4..] + y;
      SboxOfCat(table, x[4..], y);
    }
  }

  /** sbox4_8bit: two nibbles. */
  method Sbox4Byte(x: BitVec, table: Nib -> Nib) returns (out: BitVec)
    requires |x| == 8
    ensures out == SboxLayer(table, x)
  {
    out := [];
    for k := 0 to 2
      invariant |out| == 4 * k && out == SboxLayer(table, x[..4 * k])
    {
      var nibble := x[4 * k..4 * k + 4];
      assert x[..4 * (k + 1)] == x[..4 * k] + nibble;
      SboxOfCat(table, x[..4 * k], nibble);
      assert nibble[..4] == nibble && nibble[4..] == [];
      out := out + SboxNibble(table, nibble);
    }
    assert x[..8] == x;
  }

  /** sbox4_32bit and sbox4_64bit: byte by byte. */
  method Sbox4Wide(x: BitVec, bytes: nat, table: Nib -> Nib) returns (out: BitVec)
    requires |x| == 8 * bytes
    ensures out == SboxLayer(table, x)
  {
    out := [];
    for k := 0 to bytes
      invariant |out| == 8 * k && out == SboxLayer(table, x[..8 * k])
    {
      var part := Sbox4Byte(x[8 * k..8 * k + 8], table);
      NextByte(table, x, 8 * k);
      out := out + part;
    }
    assert x[..8 * bytes] == x;
  }

  lemma NextByte(table: Nib -> Nib, x: BitVec, at: nat)
    requires at % 8 == 0 && at + 8 <= |x|
    ensures SboxLayer(table, x[..at + 8]) == SboxLayer(table, x[..at]) + SboxLayer(table, x[at..at + 8])
  {
    assert x[..at + 8] == x[..at] + x[at..at + 8];
    SboxOfCat(table, x[..at], x[at..at + 8]);
  }

  // ---------------------------------------------------------------- key schedules

  /** Add a round index to five bits from lo on. */
  function AddIndex(key: BitVec, lo: nat, idx: nat): (r: BitVec)
    ensures |r| == |key|
  {
    seq(|key|, i requires 0 <= i < |key| => key[i] != (lo <= i < lo + 5 && IndexBit(idx, i - lo)))
  }

  predicate IndexBit(idx: nat, i: nat) {
    if i == 0 then idx % 2 == 1 else IndexBit(idx / 2, i - 1)
  }

  /** The four bits from lo on through a table. */
  function SboxAt(table: Nib -> Nib, key: BitVec, lo: nat): (r: BitVec)
    requires lo + 4 <= |key|
    ensures |r| == |key|
  {
    key[..lo] + SboxNibble(table, key[lo..lo + 4]) + key[lo + 4..]
  }

  lemma SboxAtInverse(table: Nib -> Nib, back: Nib -> Nib, key: BitVec, lo: nat)
    requires lo + 4 <= |key| && forall n: Nib :: back(table(n)) == n
    ensures SboxAt(back, SboxAt(table, key, lo), lo) == key
  {
    var y := SboxAt(table, key, lo);
    assert y[lo..lo + 4] == SboxNibble(table, key[lo..lo + 4]);
    SboxNibbleInverse(table, back, key[lo..lo + 4]);
    assert y[..lo] == key[..lo] && y[lo + 4..] == key[lo + 4..];
    assert key == key[..lo] + key[lo..lo + 4] + key[lo + 4..];
  }

  /** Rotate by 61 to the left, or to the right. */
  function RotateLeft(key: BitVec): (r: BitVec)
    requires |key| >= 61
    ensures |r| == |key|
  {
    key[|key| - 61..] + key[..|key| - 61]
  }

  function RotateRight(key: BitVec): (r: BitVec)
    requires |key| >= 61
    ensures |r| == |key|
  {
    key[61..] + key[..61]
  }

  lemma RotatedBack(key: BitVec)
    requires |key| >= 61
    ensures RotateRight(RotateLeft(key)) == key
  {
  }

  /** The low bit of the five that take the round index. */
  function IndexPlace(keyWidth: nat): nat {
    if keyWidth == 128 then 62 else 15
  }

  /** present_update_key64, 80 and 128; a key of another length stays. */
  function UpdateKey(key: BitVec, idx: nat): (r: BitVec)
    ensures |r| == |key|
  {
    if |key| != 64 && |key| != 80 && |key| != 128 then key
    else
      var rotated := RotateLeft(key);
      var top := SboxAt(PresentTable(false), rotated, |key| - 4);
      var boxed := if |key| == 128 then SboxAt(PresentTable(false), top, |key| - 8) else top;
      AddIndex(boxed, IndexPlace(|key|), idx)
  }

  /** present_inv_update_key64, 80 and 128 */
  function InvUpdateKey(key: BitVec, idx: nat): (r: BitVec)
    ensures |r| == |key|
  {
    if |key| != 64 && |key| != 80 && |key| != 128 then key
    else
      var added := AddIndex(key, IndexPlace(|key|), idx);
      var second := if |key| == 128 then SboxAt(PresentTable(true), added, |key| - 8) else added;
      RotateRight(SboxAt(PresentTable(true), second, |key| - 4))
  }

  /** The inverse schedule takes a key back. */
  lemma KeyStepBack(key: BitVec, idx: nat)
    ensures InvUpdateKey(UpdateKey(key, idx), idx) == key
  {
    if |key| == 64 || |key| == 80 || |key| == 128 {
      var table, back := PresentTable(false), PresentTable(true);
      forall n: Nib ensures back(table(n)) == n { PresentTablesInverse(false, n); }
      var rotated := RotateLeft(key);
      var top := SboxAt(table, rotated, |key| - 4);
      var boxed := if |key| == 128 then SboxAt(table, top, |key| - 8) else top;
      IndexTwice(boxed, IndexPlace(|key|), idx);
      SboxAtInverse(table, back, rotated, |key| - 4);
      if |key| == 128 { SboxAtInverse(table, back, top, |key| - 8); }
      RotatedBack(key);
    }
  }

  lemma IndexTwice(key: BitVec, lo: nat, idx: nat)
    ensures AddIndex(AddIndex(key, lo, idx), lo, idx) == key
  {
  }

  // ---------------------------------------------------------------- rounds

  datatype State = State(data: BitVec, key: BitVec, idx: nat)

  /** What a direction of the cipher does in each round. */
  datatype Direction = Direction(layer: BitVec -> BitVec, schedule: (BitVec, nat) -> BitVec, step: nat -> nat)

  /** The key bits that are added to the data. */
  function Top(key: BitVec, width: nat): BitVec {
    if width <= |key| then key[|key| - width..] else key
  }

  function WithKey(s: State): BitVec {
    Xor(s.data, Top(s.key, |s.data|))
  }

  /** One round: gen_round. */
  function Round(d: Direction, s: State): State {
    State(d.layer(WithKey(s)), d.schedule(s.key, s.idx), d.step(s.idx))
  }

  /** n rounds. */
  function Run(d: Direction, s: State, n: nat): State {
    if n == 0 then s else Round(d, Run(d, s, n - 1))
  }

  lemma {:induction false} RunMore(d: Direction, s: State, m: nat, n: nat)
    ensures Run(d, Run(d, s, m), n) == Run(d, s, m + n)
    decreases n
  {
    if n > 0 { RunMore(d, s, m, n - 1); }
  }

  /** The module with a number of physical rounds: the last key is added exactly when the index that
      leaves is that after the last round. */
  function Block(d: Direction, last: nat, physRounds: nat, s: State): State {
    var t := Run(d, s, physRounds);
    if t.idx == last then t.(data := WithKey(t)) else t
  }

  /** The module applied again and again to its own outputs. */
  function Iterated(d: Direction, last: nat, physRounds: nat, s: State, times: nat): State {
    if times == 0 then s else Block(d, last, physRounds, Iterated(d, last, physRounds, s, times - 1))
  }

  /** No index between the first and the last round is the last one. */
  ghost predicate LastOnly(d: Direction, s: State, last: nat, rounds: nat) {
    forall n: nat | n <= rounds :: Run(d, s, n).idx == last <==> n == rounds
  }

  lemma TimesStep(t: nat, p: nat)
    requires t > 0
    ensures (t - 1) * p + p == t * p && 0 <= (t - 1) * p
  {
  }

  /** Before the last round an iterated module has run its rounds and added no final key. */
  lemma {:induction false} IteratedRuns(d: Direction, last: nat, p: nat, s: State, times: nat, rounds: nat)
    requires LastOnly(d, s, last, rounds) && p > 0 && times * p < rounds
    ensures Iterated(d, last, p, s, times) == Run(d, s, times * p)
    decreases times
  {
    if times > 0 {
      TimesStep(times, p);
      IteratedRuns(d, last, p, s, times - 1, rounds);
      RunMore(d, s, (times - 1) * p, p);
    }
  }

  /** Iterating a block that divides the rounds is the unrolled cipher: the final key is added
      exactly once, at the end. */
  lemma IteratedIsUnrolled(d: Direction, last: nat, p: nat, s: State, times: nat, rounds: nat)
    requires LastOnly(d, s, last, rounds) && p > 0 && times > 0 && times * p == rounds
    ensures Iterated(d, last, p, s, times) == Block(d, last, rounds, s)
    ensures Block(d, last, rounds, s).data == WithKey(Run(d, s, rounds))
  {
    TimesStep(times, p);
    IteratedRuns(d, last, p, s, times - 1, rounds);
    RunMore(d, s, (times - 1) * p, p);
  }

  // ---------------------------------------------------------------- decryption inverts encryption

  /** One layer and then another. */
  function Then(f: BitVec -> BitVec, g: BitVec -> BitVec): BitVec -> BitVec {
    x => g(f(x))
  }

  function Box(inv: bool): BitVec -> BitVec {
    x => SboxLayer(PresentTable(inv), x)
  }

  function Gather(q: nat -> nat): BitVec -> BitVec {
    x => Gathered(q, x)
  }

  /** The round layers of the two directions. */
  function EncLayer(width: nat): BitVec -> BitVec {
    Then(Box(false), Gather(PermTable(width, true)))
  }

  function DecLayer(width: nat): BitVec -> BitVec {
    Then(Gather(PermTable(width, false)), Box(true))
  }

  /** f undoes g on vectors of one width. */
  ghost predicate LayerUndoes(f: BitVec -> BitVec, g: BitVec -> BitVec, width: nat) {
    forall x: BitVec | |x| == width :: |g(x)| == width && f(g(x)) == x
  }

  lemma ThenUndoes(f: BitVec -> BitVec, g: BitVec -> BitVec, f': BitVec -> BitVec, g': BitVec -> BitVec, width: nat)
    requires LayerUndoes(f', f, width) && LayerUndoes(g', g, width)
    ensures LayerUndoes(Then(g', f'), Then(f, g), width)
  {
    forall x: BitVec | |x| == width ensures |g(f(x))| == width && f'(g'(g(f(x)))) == x {
      assert |f(x)| == width && f'(f(x)) == x;
      assert g'(g(f(x))) == f(x);
    }
  }

  lemma BoxUndoes(width: nat)
    ensures LayerUndoes(Box(true), Box(false), width)
  {
    var table, back := PresentTable(false), PresentTable(true);
    forall n: Nib ensures back(table(n)) == n { PresentTablesInverse(false, n); }
    forall x: BitVec | |x| == width ensures |Box(false)(x)| == width && Box(true)(Box(false)(x)) == x {
      SboxLayersInverse(table, back, x);
    }
  }

  lemma GatherUndoes(p: nat -> nat, q: nat -> nat, width: nat)
    requires Undoes(q, p, width)
    ensures LayerUndoes(Gather(p), Gather(q), width)
  {
    forall x: BitVec | |x| == width ensures |Gather(q)(x)| == width && Gather(p)(Gather(q)(x)) == x {
      GatheredInverse(p, q, x);
    }
  }

  lemma LayersReverse(width: nat)
    requires width == 32 || width == 64
    ensures LayerUndoes(DecLayer(width), EncLayer(width), width)
  {
    BoxUndoes(width);
    TablesInverse(width, false);
    GatherUndoes(PermTable(width, false), PermTable(width, true), width);
    ThenUndoes(Box(false), Gather(PermTable(width, true)), Box(true), Gather(PermTable(width, false)), width);
  }

  /** The round datapath of encryption and of decryption, with the loops of the package. */
  method ComputeLayer(x: BitVec, width: nat, decrypt: bool) returns (out: BitVec)
    requires |x| == width && (width == 32 || width == 64)
    ensures out == if decrypt then DecLayer(width)(x) else EncLayer(width)(x)
  {
    TablesInverse(width, false);
    TablesInverse(width, true);
    if decrypt {
      var permuted := Permute(x, PermTable(width, true), PermTable(width, false));
      out := Sbox4Wide(permuted, width / 8, PresentTable(true));
    } else {
      var boxed := Sbox4Wide(x, width / 8, PresentTable(false));
      out := Permute(boxed, PermTable(width, false), PermTable(width, true));
    }
  }

  /** The five-bit round index up and down. */
  function NextIdx(i: nat): nat {
    if i == 31 then 0 else i + 1
  }

  function PreviousIdx(i: nat): nat {
    if i == 0 then 31 else i - 1
  }

  function Encryption(width: nat): Direction {
    Direction(EncLayer(width), UpdateKey, NextIdx)
  }

  function Decryption(width: nat): Direction {
    Direction(DecLayer(width), InvUpdateKey, PreviousIdx)
  }

  /** LastRoundIdx */
  function LastRoundIdx(decrypt: bool, rounds: nat): nat {
    if decrypt || rounds == 31 then 0 else rounds + 1
  }

  /** A key after n steps of a schedule with indices 1, 2 and so on. */
  function KeyAfter(schedule: (BitVec, nat) -> BitVec, key: BitVec, n: nat): BitVec {
    if n == 0 then key else schedule(KeyAfter(schedule, key, n - 1), n % 32)
  }

  /** present_get_dec_key64, 80 and 128, for a key of that width. */
  method GetDecKey(key: BitVec, roundCnt: nat) returns (keyOut: BitVec)
    ensures keyOut == KeyAfter(UpdateKey, key, roundCnt)
  {
    keyOut := key;
    for k := 0 to roundCnt
      invariant keyOut == KeyAfter(UpdateKey, key, k)
    {
      keyOut := UpdateKey(keyOut, (k + 1) % 32);
    }
  }

  /** Indices count up from one round to the next, five bits wide, or down. */
  ghost predicate CountsUp(step: nat -> nat) {
    forall i: nat | i < 32 :: step(i) == if i == 31 then 0 else i + 1
  }

  ghost predicate CountsDown(step: nat -> nat) {
    forall i: nat | 0 < i < 32 :: step(i) == i - 1
  }

  /** The index and the key after n encryption rounds. */
  lemma {:induction false} EncryptionIndex(e: Direction, s: State, n: nat)
    requires CountsUp(e.step) && s.idx == 1 && n <= 31
    ensures Run(e, s, n).idx == (if n == 31 then 0 else n + 1)
    ensures Run(e, s, n).key == KeyAfter(e.schedule, s.key, n)
    decreases n
  {
    if n > 0 { EncryptionIndex(e, s, n - 1); }
  }

  lemma {:induction false} DecryptionIndex(d: Direction, s: State, n: nat)
    requires CountsDown(d.step) && n <= s.idx <= 31
    ensures Run(d, s, n).idx == s.idx - n
    decreases n
  {
    if n > 0 { DecryptionIndex(d, s, n - 1); }
  }

  ghost predicate ScheduleUndoes(f: (BitVec, nat) -> BitVec, g: (BitVec, nat) -> BitVec) {
    forall k: BitVec, i: nat :: f(g(k, i), i) == k
  }

  /** One direction undoes another, round by round. */
  ghost predicate Reverses(d: Direction, e: Direction, width: nat) {
    && LayerUndoes(d.layer, e.layer, width) && ScheduleUndoes(d.schedule, e.schedule)
    && CountsUp(e.step) && CountsDown(d.step)
  }

  /** The state in which decryption has undone all but k rounds. */
  function Undone(e: Direction, s: State, k: nat): State {
    var t := Run(e, s, k);
    State(WithKey(t), t.key, k)
  }

  lemma {:induction false} RunWidth(e: Direction, d: Direction, s: State, width: nat, n: nat)
    requires Reverses(d, e, width) && |s.data| == width
    ensures |Run(e, s, n).data| == width
    decreases n
  {
    if n > 0 { RunWidth(e, d, s, width, n - 1); }
  }

  /** One decryption round undoes one encryption round. */
  lemma RoundUndone(e: Direction, d: Direction, s: State, width: nat, k: nat)
    requires Reverses(d, e, width) && |s.data| == width && 0 < k < 32
    requires Run(e, s, k - 1).idx == k
    ensures Round(d, Undone(e, s, k)) == Undone(e, s, k - 1)
  {
    var before := Run(e, s, k - 1);
    var t := Run(e, s, k);
    RunWidth(e, d, s, width, k - 1);
    assert t == Round(e, before);
    XorTwice(t.data, Top(t.key, width));
    assert WithKey(Undone(e, s, k)) == t.data;
  }

  /** One more round, from and to known states. */
  lemma RunStep(d: Direction, s: State, j: nat, before: State, after: State)
    requires j > 0 && Run(d, s, j - 1) == before && Round(d, before) == after
    ensures Run(d, s, j) == after
  {
  }

  /** j decryption rounds undo the last j of n encryption rounds. */
  lemma {:induction false} RoundsUndone(e: Direction, d: Direction, s: State, width: nat, n: nat, j: nat)
    requires Reverses(d, e, width) && |s.data| == width && s.idx == 1 && j <= n <= 31
    ensures Run(d, Undone(e, s, n), j) == Undone(e, s, n - j)
    decreases j
  {
    if j > 0 {
      var k := n - j;
      RoundsUndone(e, d, s, width, n, j - 1);
      EncryptionIndex(e, s, k);
      RoundUndone(e, d, s, width, k + 1);
      RunStep(d, Undone(e, s, n), j, Undone(e, s, k + 1), Undone(e, s, k));
    }
  }

  /** Of all indices up to the last round's, only that is the one that adds the final key. */
  lemma EncryptionLast(e: Direction, s: State, rounds: nat)
    requires CountsUp(e.step) && s.idx == 1 && 0 < rounds <= 31
    ensures LastOnly(e, s, LastRoundIdx(false, rounds), rounds)
  {
    forall n: nat | n <= rounds ensures Run(e, s, n).idx == LastRoundIdx(false, rounds) <==> n == rounds {
      EncryptionIndex(e, s, n);
    }
  }

  lemma DecryptionLast(d: Direction, s: State, rounds: nat)
    requires CountsDown(d.step) && s.idx == rounds <= 31
    ensures LastOnly(d, s, LastRoundIdx(true, rounds), rounds)
  {
    forall n: nat | n <= rounds ensures Run(d, s, n).idx == LastRoundIdx(true, rounds) <==> n == rounds {
      DecryptionIndex(d, s, n);
    }
  }

  /** For any two directions that reverse each other, the second module undoes the first. */
  lemma ReversedRoundTrip(e: Direction, d: Direction, s: State, width: nat, rounds: nat)
    requires Reverses(d, e, width) && |s.data| == width && s.idx == 1 && 0 < rounds <= 31
    ensures var c := Block(e, LastRoundIdx(false, rounds), rounds, s);
            && c.key == KeyAfter(e.schedule, s.key, rounds)
            && Block(d, LastRoundIdx(true, rounds), rounds, State(c.data, c.key, rounds)).data == s.data
  {
    var c := Block(e, LastRoundIdx(false, rounds), rounds, s);
    EncryptionLast(e, s, rounds);
    EncryptionIndex(e, s, rounds);
    assert State(c.data, c.key, rounds) == Undone(e, s, rounds);
    DecryptionLast(d, Undone(e, s, rounds), rounds);
    RoundsUndone(e, d, s, width, rounds, rounds);
    RunWidth(e, d, s, width, rounds);
    XorTwice(s.data, Top(s.key, width));
  }

  lemma SchedulesReverse()
    ensures ScheduleUndoes(InvUpdateKey, UpdateKey)
  {
    forall k: BitVec, i: nat ensures InvUpdateKey(UpdateKey(k, i), i) == k {
      KeyStepBack(k, i);
    }
  }

  lemma DirectionsReverse(f: BitVec -> BitVec, u: (BitVec, nat) -> BitVec, down: nat -> nat,
                          g: BitVec -> BitVec, v: (BitVec, nat) -> BitVec, up: nat -> nat, width: nat)
    requires LayerUndoes(f, g, width) && ScheduleUndoes(u, v) && CountsDown(down) && CountsUp(up)
    ensures Reverses(Direction(f, u, down), Direction(g, v, up), width)
  {
  }

  lemma CipherReverses(width: nat)
    requires width == 32 || width == 64
    ensures Reverses(Decryption(width), Encryption(width), width)
  {
    LayersReverse(width);
    SchedulesReverse();
    DirectionsReverse(DecLayer(width), InvUpdateKey, PreviousIdx, EncLayer(width), UpdateKey, NextIdx, width);
  }

  /** The unrolled decryption module, with the key stepped through all rounds and started at the last
      round's index, undoes the unrolled encryption module, for every block, key and 1 to 31 rounds. */
  ghost predicate Inverts(d: Direction, e: Direction, width: nat) {
    forall data: BitVec, key: BitVec, rounds: nat
      {:trigger Block(e, LastRoundIdx(false, rounds), rounds, State(data, key, 1))}
      | |data| == width && 0 < rounds <= 31 ::
      var c := Block(e, LastRoundIdx(false, rounds), rounds, State(data, key, 1));
      var last := KeyAfter(e.schedule, key, rounds);
      Block(d, LastRoundIdx(true, rounds), rounds, State(c.data, last, rounds)).data == data
  }

  lemma ReversesInverts(d: Direction, e: Direction, width: nat)
    requires Reverses(d, e, width)
    ensures Inverts(d, e, width)
  {
    forall data: BitVec, key: BitVec, rounds: nat | |data| == width && 0 < rounds <= 31
      ensures var c := Block(e, LastRoundIdx(false, rounds), rounds, State(data, key, 1));
              var last := KeyAfter(e.schedule, key, rounds);
              Block(d, LastRoundIdx(true, rounds), rounds, State(c.data, last, rounds)).data == data
    {
      ReversedRoundTrip(e, d, State(data, key, 1), width, rounds);
    }
  }

  /** Decryption inverts encryption at both data widths and with keys of 64, 80 and 128 bits. */
  lemma DecryptInvertsEncrypt(width: nat)
    requires width == 32 || width == 64
    ensures Inverts(Decryption(width), Encryption(width), width)
  {
    CipherReverses(width);
    ReversesInverts(Decryption(width), Encryption(width), width);
  }

  /** A module with any number of physical rounds that divides the rounds, iterated, computes what the
      unrolled one does, in either direction, and adds the final key exactly once. */
  lemma IteratedCipher(d: Direction, decrypt: bool, s: State, physRounds: nat, times: nat, rounds: nat)
    requires if decrypt then CountsDown(d.step) && s.idx == rounds else CountsUp(d.step) && s.idx == 1
    requires 0 < rounds <= 31 && physRounds > 0 && times > 0 && times * physRounds == rounds
    ensures var last := LastRoundIdx(decrypt, rounds);
            && Iterated(d, last, physRounds, s, times) == Block(d, last, rounds, s)
            && Block(d, last, rounds, s).data == WithKey(Run(d, s, rounds))
  {
    if decrypt { DecryptionLast(d, s, rounds); } else { EncryptionLast(d, s, rounds); }
    IteratedIsUnrolled(d, LastRoundIdx(decrypt, rounds), physRounds, s, times, rounds);
  }

  lemma IndicesCount(width: nat)
    ensures CountsUp(Encryption(width).step) && CountsDown(Decryption(width).step)
  {
  }

  /** Iterating changes nothing about the round trip of two directions. */
  lemma IteratedInverts(d: Direction, e: Direction, width: nat, data: BitVec, key: BitVec, rounds: nat,
                        encRounds: nat, encTimes: nat, decRounds: nat, decTimes: nat)
    requires Inverts(d, e, width) && CountsUp(e.step) && CountsDown(d.step)
    requires |data| == width && 0 < rounds <= 31
    requires encRounds > 0 && encTimes > 0 && encTimes * encRounds == rounds
    requires decRounds > 0 && decTimes > 0 && decTimes * decRounds == rounds
    ensures var c := Iterated(e, LastRoundIdx(false, rounds), encRounds, State(data, key, 1), encTimes);
            && c.key == KeyAfter(e.schedule, key, rounds)
            && Iterated(d, LastRoundIdx(true, rounds), decRounds, State(c.data, c.key, rounds), decTimes).data == data
  {
    var s := State(data, key, 1);
    var c := Block(e, LastRoundIdx(false, rounds), rounds, s);
    IteratedCipher(e, false, s, encRounds, encTimes, rounds);
    EncryptionIndex(e, s, rounds);
    IteratedCipher(d, true, State(c.data, c.key, rounds), decRounds, decTimes, rounds);
  }

  /** PRESENT at both data widths: for every block and key, 1 to 31 rounds and any numbers of physical
      rounds that divide them, the iterated encryption leaves the stepped key, and the iterated
      decryption from that key and the index of the last round returns the block. */
  lemma IteratedRoundTrip(width: nat, data: BitVec, key: BitVec, rounds: nat,
                          encRounds: nat, encTimes: nat, decRounds: nat, decTimes: nat)
    requires (width == 32 || width == 64) && |data| == width && 0 < rounds <= 31
    requires encRounds > 0 && encTimes > 0 && encTimes * encRounds == rounds
    requires decRounds > 0 && decTimes > 0 && decTimes * decRounds == rounds
    ensures var e, d := Encryption(width), Decryption(width);
            var c := Iterated(e, LastRoundIdx(false, rounds), encRounds, State(data, key, 1), encTimes);
            && c.key == KeyAfter(UpdateKey, key, rounds)
            && Iterated(d, LastRoundIdx(true, rounds), decRounds, State(c.data, c.key, rounds), decTimes).data == data
  {
    IndicesCount(width);
    DecryptInvertsEncrypt(width);
    IteratedInverts(Decryption(width), Encryption(width), width, data, key, rounds,
                    encRounds, encTimes, decRounds, decTimes);
  }
}
