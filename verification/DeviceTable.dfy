/** The open-addressing table behind the device registry: its slots, its hash, and the order
    in which it probes them. */
module DeviceTable {
  import opened Bits
  import opened Devices
  import opened Words

  const SLOT_EMPTY := 0
  const SLOT_TOMBSTONE := 0xFFFF_FFFF

  type Hash = h: nat | SLOT_EMPTY < h < SLOT_TOMBSTONE witness 1

  datatype Slot = Slot(hash: nat, device: Device?)

  const FREE_SLOT := Slot(SLOT_EMPTY, null)
  const DELETED_SLOT := Slot(SLOT_TOMBSTONE, null)

  type Table = seq<Slot>

  /** The number of slots, 2 to the `bits`, and the string hash. */
  datatype Config = Config(bits: nat, hashOf: Name -> Hash) {
    function Size(): (n: nat)
      ensures n > 0
    {
      Pow2(bits)
    }

    function MaxLoad(): nat {
      Size() * 3 / 4
    }

    predicate Valid() {
      bits <= 31
    }

    /** The i-th slot probed for a hash: 32-bit addition, then a mask. */
    function Index(h: nat, i: nat): (r: nat)
      ensures r < Size()
    {
      MaskIsMod((h + i) % TWO_32, bits);
      BitAnd((h + i) % TWO_32, Size() - 1)
    }
  }

  /** FNV-1a over the characters' low bytes, with the two sentinels remapped. */
  function Fnv1a(name: Name): Hash {
    Remap(Fold(name, 2166136261))
  }

  function Fold(name: Name, h: nat): (r: nat)
    requires h < TWO_32
    ensures r < TWO_32
  {
    if name == [] then h
    else
      Fold(name[1..], Round(h, name[0] as int % 256))
  }

  function Remap(h: nat): Hash
    requires h < TWO_32
  {
    if h == SLOT_EMPTY then 1 else if h == SLOT_TOMBSTONE then SLOT_TOMBSTONE - 1 else h
  }

  /** The program's own table: 128 slots, hashed by FNV-1a. */
  const HAL_TABLE := Config(7, Fnv1a)

  lemma HalTableIsValid()
    ensures HAL_TABLE.Valid() && HAL_TABLE.Size() == 128 && HAL_TABLE.MaxLoad() == 96
  {
    assert Pow2(3) == 8 && Pow2(7) == 16 * Pow2(3);
  }

  /** The byte that takes the low byte of the hash's start, 197, to n. */
  function ByteFor(n: nat): (b: nat)
    requires n < 128
    ensures 0 < b < 256
    ensures BitXor(197, b) == n
  {
    assert Pow2(4) == 16 && Pow2(8) == 16 * Pow2(4);
    XorBounds(197, n, 8);
    XorCancels(197, n);
    BitXor(197, n)
  }

  /** One round of the hash. */
  function Round(h: nat, byte: nat): (r: nat)
    ensures r < TWO_32
  {
    (h / 256 * 256 + BitXor(h % 256, byte)) * 16777619 % TWO_32
  }

  lemma FoldOne(name: Name, h: nat, byte: nat, r: nat)
    requires h < TWO_32 && |name| == 1 && byte == name[0] as int % 256 && r == Round(h, byte)
    ensures Fold(name, h) == r
  {
    assert name[1..] == [];
    assert Fold(name[1..], r) == r;
  }

  lemma RoundIs(h: nat, byte: nat, hi: nat, n: nat)
    requires h / 256 * 256 == hi && BitXor(h % 256, byte) == n
    ensures Round(h, byte) == (hi + n) * 16777619 % TWO_32
  {
  }

  lemma FirstRound(byte: nat, n: nat)
    requires BitXor(197, byte) == n
    ensures Round(2166136261, byte) == (2166136064 + n) * 16777619 % TWO_32
  {
    var h := 2166136261;
    assert h % 256 == 197 && h / 256 * 256 == 2166136064;
    RoundIs(h, byte, 2166136064, n);
  }

  lemma OneByteHash(n: nat, h: nat)
    requires n < 128 && h == (2166136064 + n) * 16777619 % TWO_32
    ensures h == 1074472704 + 16777619 * n
    ensures h != SLOT_EMPTY && h != SLOT_TOMBSTONE
  {
    var x := 1074472704 + 16777619 * n;
    var q := 8461672;
    assert (2166136064 + n) * 16777619 == TWO_32 * q + x;
    ModUnique((2166136064 + n) * 16777619, TWO_32, q, x);
  }

  lemma OneByteHome(n: nat, h: nat)
    requires h == 1074472704 + 16777619 * n
    ensures h % 128 == 19 * n % 128
  {
    var q := 19 * n / 128;
    assert h == 128 * (131075 * n + 8394318 + q) + 19 * n % 128;
    ModUnique(h, 128, 131075 * n + 8394318 + q, 19 * n % 128);
  }

  /** A name of one byte. */
  function NameOf(byte: nat): Name
    requires byte < 256
  {
    [byte as char]
  }

  /** A name of one byte whose home in the program's own table is slot k. */
  function NameAt(k: nat): Name
    requires k < 128
  {
    NameOf(ByteFor(27 * k % 128))
  }

  lemma InverseOf19(k: nat, n: nat)
    requires k < 128 && n == 27 * k % 128
    ensures 19 * n % 128 == k
  {
    var q := 27 * k / 128;
    assert 19 * n == 128 * (4 * k - 19 * q) + k;
    ModUnique(19 * n, 128, 4 * k - 19 * q, k);
  }

  lemma ByteOfName(byte: nat)
    requires byte < 256
    ensures |NameOf(byte)| == 1 && NameOf(byte)[0] as int % 256 == byte
  {
  }

  lemma OneByteFolds(name: Name, byte: nat, n: nat, h: nat)
    requires |name| == 1 && name[0] as int % 256 == byte && BitXor(197, byte) == n
    requires h == (2166136064 + n) * 16777619 % TWO_32
    ensures Fold(name, 2166136261) == h
  {
    FirstRound(byte, n);
    FoldOne(name, 2166136261, byte, h);
  }

  lemma HashIsFold(name: Name, h: nat)
    requires Fold(name, 2166136261) == h && h != SLOT_EMPTY && h != SLOT_TOMBSTONE
    ensures HAL_TABLE.hashOf(name) == h
  {
  }

  lemma OneByteHashHome(n: nat, k: nat, h: nat)
    requires n == 27 * k % 128 && k < 128 && h == (2166136064 + n) * 16777619 % TWO_32
    ensures h != SLOT_EMPTY && h != SLOT_TOMBSTONE && h % 128 == k
  {
    OneByteHash(n, h);
    OneByteHome(n, h);
    InverseOf19(k, n);
  }

  lemma NameAtHasHome(k: nat, name: Name)
    requires k < 128 && name == NameAt(k)
    ensures HAL_TABLE.hashOf(name) % HAL_TABLE.Size() == k
  {
    var n := 27 * k % 128;
    var h := (2166136064 + n) * 16777619 % TWO_32;
    OneByteHashHome(n, k, h);
    var byte := ByteFor(n);
    ByteOfName(byte);
    OneByteFolds(name, byte, n, h);
    HashIsFold(name, h);
    HalTableIsValid();
  }

  /** The masked, wrapping probe walks the slots from the home slot onwards, modulo the size. */
  lemma IndexIsMod(c: Config, h: nat, i: nat)
    requires c.Valid()
    ensures c.Index(h, i) == (h + i) % c.Size()
  {
    MaskIsMod((h + i) % TWO_32, c.bits);
    SizeDividesWord(c.bits);
    var q: nat :| TWO_32 == Pow2(c.bits) * q;
    ModOfMod(h + i, c.Size(), q);
  }

  lemma SizeDividesWord(bits: nat)
    requires bits <= 31
    ensures exists q: nat :: TWO_32 == Pow2(bits) * q
  {
    WordIsPow2();
    Pow2Sum(bits, 32 - bits);
  }

  lemma WordIsPow2()
    ensures Pow2(32) == TWO_32
  {
    assert Pow2(8) == 256;
    Pow2Sum(8, 8);
    Pow2Sum(16, 16);
  }

  /** How many probes a hash needs to reach slot j. */
  ghost function Dist(c: Config, h: nat, j: nat): (d: nat)
    requires j < c.Size()
    ensures d < c.Size()
  {
    (j + c.Size() - h % c.Size()) % c.Size()
  }

  /** Every slot is probed exactly once in Size() probes. */
  lemma ProbeVisitsOnce(c: Config, h: nat, j: nat)
    requires c.Valid() && j < c.Size()
    ensures c.Index(h, Dist(c, h, j)) == j
    ensures forall i: nat :: i < c.Size() && c.Index(h, i) == j ==> i == Dist(c, h, j)
  {
    var n := c.Size();
    var d := Dist(c, h, j);
    IndexIsMod(c, h, d);
    DistReaches(h, j, n);
    forall i: nat | i < n && c.Index(h, i) == j
      ensures i == d
    {
      ProbesDiffer(c, h, i, d);
    }
  }

  lemma ProbesDiffer(c: Config, h: nat, i: nat, d: nat)
    requires c.Valid() && i < c.Size() && d < c.Size() && c.Index(h, i) == c.Index(h, d)
    ensures i == d
  {
    IndexIsMod(c, h, i);
    IndexIsMod(c, h, d);
    if i <= d {
      ModApart(h + i, h + d, c.Size());
    } else {
      ModApart(h + d, h + i, c.Size());
    }
  }

  lemma DistReaches(h: nat, j: nat, n: nat)
    requires j < n
    ensures (h + (j + n - h % n) % n) % n == j
  {
    var home := h % n;
    if home <= j {
      ModUnique(j + n - home, n, 1, j - home);
      ModUnique(h + (j - home), n, h / n, j);
    } else {
      ModUnique(j + n - home, n, 0, j + n - home);
      assert n * (h / n + 1) == n * (h / n) + n;
      ModUnique(h + (j + n - home), n, h / n + 1, j);
    }
  }
}
