/** The memory of an optical transceiver and the linear address space the optoe driver shows for it.

    A transceiver answers on one I2C address (QSFP style) or on two (SFP style).  One of its addresses is
    paged: bytes 0-127 are fixed, byte 127 is the page-select register, and bytes 128-255 are a window onto
    the page that the register selects.  An SFP has a second, flat, 256-byte address before it. */
module Eeprom {
  import opened Bytes

  const PAGE_SIZE := 128
  const ARCH_PAGES := 256
  const PAGE_SELECT_REG := 127

  /** ONE_ADDR: QSFP style, one I2C address.  TWO_ADDR: SFP style, two I2C addresses. */
  datatype DevClass = OneAddr | TwoAddr

  /** client[0] (I2C address 0x50) and client[1] (0x51). */
  datatype Client = Client0 | Client1

  /** Bytes that the linear address space places before the paged address. */
  function Base(cls: DevClass): nat { if cls.TwoAddr? then 256 else 0 }

  /** Length of the full linear address space: TWO_ADDR_EEPROM_SIZE or ONE_ADDR_EEPROM_SIZE. */
  function Size(cls: DevClass): nat { Base(cls) + (1 + ARCH_PAGES) * PAGE_SIZE }

  /** Linear address of the page-select register. */
  function SelectAt(cls: DevClass): nat { Base(cls) + PAGE_SELECT_REG }

  predicate HasClient(cls: DevClass, c: Client) { c.Client1? ==> cls.TwoAddr? }

  predicate IsPaged(cls: DevClass, c: Client) { cls.OneAddr? || c.Client1? }

  /** Where a linear address lives: I2C client, page to select, offset on the wire. */
  datatype Address = Address(client: Client, page: nat, phy: nat)

  /** The triples the driver may produce: page 0 outside the window, one of 256 pages inside it. */
  predicate Canonical(cls: DevClass, a: Address) {
    && HasClient(cls, a.client)
    && a.phy < 256
    && a.page < ARCH_PAGES
    && (a.page != 0 ==> IsPaged(cls, a.client) && PAGE_SIZE <= a.phy)
  }

  /** The linear address of a canonical triple. */
  function LinearOf(cls: DevClass, a: Address): nat {
    (if a.client.Client1? then Base(cls) else 0) + PAGE_SIZE * a.page + a.phy
  }

  /** Distinct canonical triples have distinct linear addresses. */
  lemma LinearOfInjective(cls: DevClass, a: Address, b: Address)
    requires Canonical(cls, a) && Canonical(cls, b) && LinearOf(cls, a) == LinearOf(cls, b)
    ensures a == b
  {
  }

  /** Canonical triples cover exactly the legal linear range. */
  lemma LinearOfOnto(cls: DevClass, off: nat)
    ensures off < Size(cls) <==> exists a :: Canonical(cls, a) && LinearOf(cls, a) == off
  {
    if off < Size(cls) {
      var rel := if off < Base(cls) then off else off - Base(cls);
      var c := if cls.TwoAddr? && off >= Base(cls) then Client1 else Client0;
      var a := if rel < 2 * PAGE_SIZE then Address(c, 0, rel)
               else Address(c, rel / PAGE_SIZE - 1, PAGE_SIZE + rel % PAGE_SIZE);
      assert Canonical(cls, a) && LinearOf(cls, a) == off;
    }
  }

  /** In the linear space, the window through which the page that the register selects is seen. */
  predicate InWindow(cls: DevClass, i: int) {
    Base(cls) + PAGE_SIZE <= i < Base(cls) + 2 * PAGE_SIZE
  }

  /** The linear address reached by an access to `i` that selects no page, with `reg` in the register. */
  function Through(cls: DevClass, reg: byte, i: nat): (j: nat)
    ensures i < Size(cls) ==> j < Size(cls)
  {
    if InWindow(cls, i) then i + PAGE_SIZE * reg else i
  }

  /** The page on which a linear address past the window lies. */
  function PageOf(cls: DevClass, i: int): int {
    (i - Base(cls)) / PAGE_SIZE - 1
  }

  /** The transceiver's memory, bank by bank. */
  datatype Memory = Memory(cls: DevClass, flat: seq<byte>, lower: seq<byte>, pages: seq<seq<byte>>) {

    ghost predicate Valid() {
      && |flat| == Base(cls)
      && |lower| == PAGE_SIZE
      && |pages| == ARCH_PAGES
      && forall p :: 0 <= p < ARCH_PAGES ==> |pages[p]| == PAGE_SIZE
    }

    /** Content of the page-select register. */
    function Select(): byte
      requires Valid()
    {
      lower[PAGE_SELECT_REG]
    }

    /** The byte the device returns for a one-byte read. */
    function Peek(c: Client, phy: nat): byte
      requires Valid() && HasClient(cls, c) && phy < 256
    {
      if !IsPaged(cls, c) then flat[phy]
      else if phy < PAGE_SIZE then lower[phy]
      else pages[Select()][phy - PAGE_SIZE]
    }

    /** The device after a one-byte write. */
    function Poke(c: Client, phy: nat, v: byte): (r: Memory)
      requires Valid() && HasClient(cls, c) && phy < 256
      ensures r.Valid() && r.cls == cls
    {
      if !IsPaged(cls, c) then this.(flat := flat[phy := v])
      else if phy < PAGE_SIZE then this.(lower := lower[phy := v])
      else
        var page: seq<byte> := pages[Select()][phy - PAGE_SIZE := v];
        this.(pages := pages[Select() := page])
    }

    /** The byte that belongs at a linear address. */
    function At(i: nat): byte
      requires Valid() && i < Size(cls)
    {
      if i < Base(cls) then flat[i]
      else if i < Base(cls) + PAGE_SIZE then lower[i - Base(cls)]
      else pages[(i - Base(cls)) / PAGE_SIZE - 1][(i - Base(cls)) % PAGE_SIZE]
    }

    /** The whole linear address space as one flat array. */
    function Linear(): (s: seq<byte>)
      requires Valid()
      ensures |s| == Size(cls) && forall i :: 0 <= i < |s| ==> s[i] == At(i)
    {
      seq(Size(cls), i requires 0 <= i < Size(cls) => At(i))
    }

    /** The linear address that a wire offset reaches with the register as it stands. */
    function Cell(c: Client, phy: nat): nat
      requires Valid() && HasClient(cls, c) && phy < 256
    {
      LinearOf(cls, Address(c, if IsPaged(cls, c) && PAGE_SIZE <= phy then Select() else 0, phy))
    }

    /** The linear address that an access to `off` really reaches: the page-0 window is used without
        selecting page 0 first, so it shows whatever page the register holds. */
    function Reached(off: nat): nat
      requires Valid()
    {
      Through(cls, Select(), off)
    }

    /** How much of the linear space the module supports, from its capability bytes. */
    function Supported(): (n: nat)
      requires Valid()
      ensures 256 <= n <= Size(cls)
    {
      if cls.OneAddr? then (if Bit(At(2), 4) then 256 else Size(cls))
      else if Bit(At(64), 16) then Size(cls)
      else if Bit(At(92), 64) then 512
      else 256
    }
  }

  /** A memory with all its banks. */
  type Module = m: Memory | m.Valid() ghost witness Blank()

  ghost function Blank(): (m: Memory)
    ensures m.Valid()
  {
    Memory(OneAddr, [], seq(PAGE_SIZE, _ => 0), seq(ARCH_PAGES, _ => seq(PAGE_SIZE, _ => 0)))
  }

  /** `b & mask` for a one-bit mask. */
  predicate Bit(b: byte, mask: nat)
    requires mask > 0
  {
    (b / mask) % 2 == 1
  }

  /** A byte in binary: the bit of that weight, and the number formed by the bits above and below it. */
  predicate Split(b: nat, weight: nat, above: nat, bit: nat, below: nat) {
    b == 2 * weight * above + weight * bit + below && bit < 2 && below < weight
  }

  lemma BitOfSplit(b: byte, weight: nat, above: nat, bit: nat, below: nat)
    requires weight == 4 || weight == 16 || weight == 64
    requires Split(b, weight, above, bit, below)
    ensures Bit(b, weight) <==> bit == 1
  {
    if weight == 4 {
      assert b / 4 == 2 * above + bit;
    } else if weight == 16 {
      assert b / 16 == 2 * above + bit;
    } else {
      assert b / 64 == 2 * above + bit;
    }
  }

  /** One address: bit 2 of byte 2 says that there are no pages. */
  lemma SupportedOneAddr(m: Module, above: nat, bit: nat, below: nat)
    requires m.cls.OneAddr? && Split(m.At(2), 4, above, bit, below)
    ensures m.Supported() == if bit == 1 then 256 else 32896
  {
    BitOfSplit(m.At(2), 4, above, bit, below);
  }

  /** Two addresses: bit 4 of byte 64 says that there are pages, else bit 6 of byte 92 that there is a second one. */
  lemma SupportedTwoAddr(m: Module, above: nat, pages: nat, below: nat, above': nat, second: nat, below': nat)
    requires m.cls.TwoAddr? && Split(m.At(64), 16, above, pages, below) && Split(m.At(92), 64, above', second, below')
    ensures m.Supported() == if pages == 1 then 33152 else if second == 1 then 512 else 256
  {
    BitOfSplit(m.At(64), 16, above, pages, below);
    BitOfSplit(m.At(92), 64, above', second, below');
  }

  predicate IsCapabilityByte(cls: DevClass, i: int) {
    if cls.OneAddr? then i == 2 else i == 64 || i == 92
  }

  lemma PeekIsLinear(m: Module, c: Client, phy: nat)
    requires HasClient(m.cls, c) && phy < 256
    ensures m.Cell(c, phy) < Size(m.cls)
    ensures m.Peek(c, phy) == m.At(m.Cell(c, phy))
  {
  }

  /** A one-byte write changes exactly one linear byte: the one the offset reaches. */
  lemma PokeIsLinear(m: Module, c: Client, phy: nat, v: byte)
    requires HasClient(m.cls, c) && phy < 256
    ensures var n := m.Poke(c, phy, v);
            n.cls == m.cls && m.Cell(c, phy) < Size(m.cls) &&
            forall i: nat :: i < Size(m.cls) ==> n.At(i) == if i == m.Cell(c, phy) then v else m.At(i)
  {
  }

  /** `flat` with `data` laid over it at `off`. */
  function Splice(flat: seq<byte>, off: nat, data: seq<byte>): (s: seq<byte>)
    requires off + |data| <= |flat|
    ensures |s| == |flat|
    ensures forall i :: 0 <= i < |s| ==> s[i] == if off <= i < off + |data| then data[i - off] else flat[i]
  {
    flat[..off] + data + flat[off + |data|..]
  }
}
