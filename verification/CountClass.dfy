/** Hit-count classes: `classify_counts` through the 16-bit table against the byte-by-byte map
    (AFLGo/afl-fuzz.c:1410-1465).  Bytes are numbers here; a `u16` over two bytes of the map is the
    second byte times 256 plus the first. */
module CountClass {
  import opened Bytes
  import opened Platform

  type short = x: int | 0 <= x < 0x1_0000

  /** `count_class_lookup8` */
  function Class8(count: byte): byte {
    if count <= 2 then count
    else if count == 3 then 4
    else if count <= 7 then 8
    else if count <= 15 then 16
    else if count <= 31 then 32
    else if count <= 127 then 64
    else 128
  }

  /** The least counts of the buckets. */
  const BUCKETS: set<int> := {1, 2, 3, 4, 8, 16, 32, 128}

  /** Each class is one bit, the empty count alone has none, and more hits give a higher class exactly where
      they reach another bucket: 1, 2, 3, 4-7, 8-15, 16-31, 32-127, 128 and more. */
  lemma ClassesAreBuckets(a: byte, b: byte)
    ensures Class8(a) in {0, 1, 2, 4, 8, 16, 32, 64, 128} && (Class8(a) == 0 <==> a == 0)
    ensures a <= b ==> Class8(a) <= Class8(b)
    ensures a < b ==> (Class8(a) < Class8(b) <==> exists limit :: limit in BUCKETS && a < limit <= b)
  {
  }

  function Short(lo: byte, hi: byte): short {
    256 * hi + lo
  }

  function Class16(x: short): short {
    Short(Class8(x % 256), Class8(x / 256))
  }

  lemma ShortParts(lo: byte, hi: byte)
    ensures Short(lo, hi) % 256 == lo && Short(lo, hi) / 256 == hi
  {
  }

  /** `init_count_class16` */
  method InitCountClass16() returns (table: array<short>)
    ensures fresh(table) && table.Length == 0x1_0000
    ensures forall x: short :: table[x] == Class16(x)
  {
    table := new short[0x1_0000](_ => 0);
    for b1: int := 0 to 256
      invariant forall x: short :: x / 256 < b1 ==> table[x] == Class16(x)
    {
      for b2: int := 0 to 256
        invariant forall x: short :: x / 256 < b1 || (x / 256 == b1 && x % 256 < b2) ==> table[x] == Class16(x)
      {
        ShortParts(b2, b1);
        table[256 * b1 + b2] := Short(Class8(b2), Class8(b1));
      }
    }
  }

  /** The bytewise map: every count is replaced by its class. */
  function Classified(mem: seq<byte>): (r: seq<byte>)
    ensures |r| == |mem|
  {
    seq(|mem|, i requires 0 <= i < |mem| => Class8(mem[i]))
  }

  /** `mem16[k] = table[mem16[k]]` */
  method ClassifyShort(mem: array<byte>, p: nat, table: array<short>)
    requires p + 2 <= mem.Length && table.Length == 0x1_0000 && mem as object != table
    requires forall x: short :: table[x] == Class16(x)
    modifies mem
    ensures mem[..] == old(mem[..])[p := Class8(old(mem[p]))][p + 1 := Class8(old(mem[p + 1]))]
  {
    ShortParts(mem[p], mem[p + 1]);
    var x := table[Short(mem[p], mem[p + 1])];
    ShortParts(Class8(mem[p]), Class8(mem[p + 1]));
    mem[p], mem[p + 1] := x % 256, x / 256;
  }

  /** `classify_counts`, 64-bit form: words that are zero are passed over. */
  method ClassifyCounts(mem: array<byte>, table: array<short>)
    requires mem.Length == MAP_SIZE && table.Length == 0x1_0000 && mem as object != table
    requires forall x: short :: table[x] == Class16(x)
    modifies mem
    ensures mem[..] == Classified(old(mem[..]))
  {
    var p := 0;
    while p < MAP_SIZE
      invariant p <= MAP_SIZE && p % 8 == 0
      invariant forall i :: 0 <= i < MAP_SIZE ==> mem[i] == if i < p then Class8(old(mem[i])) else old(mem[i])
    {
      ClassifyWord(mem, p, table);
      p := p + 8;
    }
  }

  method ClassifyWord(mem: array<byte>, p: nat, table: array<short>)
    requires p + 8 <= mem.Length && table.Length == 0x1_0000 && mem as object != table
    requires forall x: short :: table[x] == Class16(x)
    modifies mem
    ensures forall i :: 0 <= i < mem.Length ==> mem[i] == if p <= i < p + 8 then Class8(old(mem[i])) else old(mem[i])
  {
    hide Class16, Class8;
    ClassesAreBuckets(0, 0);
    if exists k :: p <= k < p + 8 && mem[k] != 0 {
      ClassifyShort(mem, p, table);
      ClassifyShort(mem, p + 2, table);
      ClassifyShort(mem, p + 4, table);
      ClassifyShort(mem, p + 6, table);
    }
  }
}
