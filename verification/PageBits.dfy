/** The words of kernel/src/vmm/page_table.h and the fields that they pack. */
module PageBits {
  const PRESENT: bv64 := 1
  const WRITABLE: bv64 := 2
  const USER: bv64 := 4
  const HUGE: bv64 := 0x80
  const ADDRESS_MASK: bv64 := 0x000F_FFFF_FFFF_F000
  const OTHER_MASK: bv64 := 0xFFF0_0000_0000_0F78

  /** A page-table word by its fields. `frame` is the physical address here and the page number in
      the page-table model; `other` keeps the remaining flag bits in place. */
  datatype Entry<F> = Entry(present: bool, writable: bool, user: bool, huge: bool, frame: F, other: bv64)

  function Decode(word: bv64): Entry<bv64> {
    Entry(word & PRESENT != 0, word & WRITABLE != 0, word & USER != 0, word & HUGE != 0,
          word & ADDRESS_MASK, word & OTHER_MASK)
  }

  /** The entry that points to a lower table. */
  function TableEntry<F>(frame: F): Entry<F> {
    Entry(true, true, false, false, frame, 0)
  }

  /** The leaf with the given flags. */
  function LeafEntry<F>(frame: F, flags: bv64): Entry<F> {
    Entry(true, flags & WRITABLE != 0, flags & USER != 0, false, frame, flags & OTHER_MASK)
  }

  /** The word that ensure_next_table writes: page_table.c:101. */
  function TableWord(physical: bv64): bv64 {
    physical | PRESENT | WRITABLE
  }

  /** The word that page_table_map writes: page_table.c:528-530. */
  function MapWord(physical: bv64, flags: bv64): bv64 {
    (physical & ADDRESS_MASK) | (flags & !PRESENT & !HUGE) | PRESENT
  }

  /** The flags of page_table_map_user: page_table.c:545-550. */
  function UserFlags(writable: bool): bv64 {
    if writable then PRESENT | USER | WRITABLE else PRESENT | USER
  }

  /** The word that page_table_map_user writes: page_table.c:580. */
  function UserWord(physical: bv64, writable: bool): bv64 {
    physical | UserFlags(writable)
  }

  lemma DecodeTable(physical: bv64)
    requires physical & ADDRESS_MASK == physical
    ensures Decode(TableWord(physical)) == TableEntry(physical)
  {
  }

  /** Flags outside the address field never move the frame, and the present and huge bits of the caller's
      flags are ignored. */
  lemma DecodeLeaf(physical: bv64, flags: bv64)
    ensures Decode(MapWord(physical, flags)) == LeafEntry(physical & ADDRESS_MASK, flags)
       <==> flags & ADDRESS_MASK & !physical == 0
  {
    hide MapWord;
    LeafPresent(physical, flags);
    LeafAccess(physical, flags);
    LeafOther(physical, flags);
    LeafAddress(physical, flags);
  }

  lemma LeafPresent(physical: bv64, flags: bv64)
    ensures MapWord(physical, flags) & PRESENT != 0 && MapWord(physical, flags) & HUGE == 0
  {
  }

  lemma LeafAccess(physical: bv64, flags: bv64)
    ensures MapWord(physical, flags) & WRITABLE == flags & WRITABLE && MapWord(physical, flags) & USER == flags & USER
  {
  }

  lemma LeafOther(physical: bv64, flags: bv64)
    ensures MapWord(physical, flags) & OTHER_MASK == flags & OTHER_MASK
  {
  }

  lemma LeafAddress(physical: bv64, flags: bv64)
    ensures MapWord(physical, flags) & ADDRESS_MASK == physical & ADDRESS_MASK <==>
        flags & ADDRESS_MASK & !physical == 0
  {
    LeafAddressBits(physical, flags);
    OrDisjoint(physical & ADDRESS_MASK, flags & ADDRESS_MASK & !physical);
  }

  lemma LeafAddressBits(physical: bv64, flags: bv64)
    ensures
      var stray := flags & ADDRESS_MASK & !physical;
      && MapWord(physical, flags) & ADDRESS_MASK == (physical & ADDRESS_MASK) | stray
      && (physical & ADDRESS_MASK) & stray == 0
  {
  }

  lemma OrDisjoint(a: bv64, b: bv64)
    requires a & b == 0
    ensures a | b == a <==> b == 0
  {
    if a | b == a {
      assert b == (a | b) & b;
    }
  }

  lemma DecodeUserLeaf(physical: bv64, writable: bool)
    requires physical & ADDRESS_MASK == physical
    ensures Decode(UserWord(physical, writable)) == LeafEntry(physical, UserFlags(writable))
  {
  }

  lemma WritableFlag()
    ensures WRITABLE & ADDRESS_MASK == 0
  {
  }

  /** The user leaf is the physical word as passed, made present and open to user mode, and writable if and
      only if that was asked for or the word itself has bit 1. */
  lemma UserLeafOpen(physical: bv64, writable: bool)
    ensures Decode(UserWord(physical, writable)) ==
            Decode(physical).(present := true, user := true, writable := writable || physical & 2 != 0)
  {
    hide UserWord;
    UserWordOpen(physical, writable);
    UserWordWritable(physical, writable);
    UserWordRest(physical, writable);
  }

  lemma UserWordOpen(physical: bv64, writable: bool)
    ensures UserWord(physical, writable) & PRESENT != 0 && UserWord(physical, writable) & USER != 0
  {
  }

  lemma UserWordWritable(physical: bv64, writable: bool)
    ensures UserWord(physical, writable) & WRITABLE != 0 <==> writable || physical & 2 != 0
  {
  }

  lemma UserWordRest(physical: bv64, writable: bool)
    ensures UserWord(physical, writable) & HUGE == physical & HUGE
    ensures UserWord(physical, writable) & ADDRESS_MASK == physical & ADDRESS_MASK
    ensures UserWord(physical, writable) & OTHER_MASK == physical & OTHER_MASK
  {
  }

  /** The words as they lie in memory for page 5, bit by bit as the processor defines them. */
  lemma WordsInMemory()
    ensures TableWord(0x5000) == 0x5003 && MapWord(0x5000, 0) == 0x5001 && MapWord(0x5000, WRITABLE) == 0x5003
    ensures UserWord(0x5000, false) == 0x5005 && UserWord(0x5000, true) == 0x5007
    ensures Decode(0x8000_0000_0000_5087) == Entry(true, true, true, true, 0x5000, 0x8000_0000_0000_0000)
  {
  }

  /** `entry |= PAGE_USER` touches nothing but the user bit. */
  lemma DecodeSetUser(word: bv64)
    ensures Decode(word | USER) == Decode(word).(user := true)
  {
  }

  /** Decoding loses nothing: a word is determined by its fields. */
  lemma DecodeInjective(v: bv64, w: bv64)
    requires Decode(v) == Decode(w)
    ensures v == w
  {
  }

  // ----- words and page numbers -----

  /** One more binary digit at the end. */
  function Shift(word: bv64, bit: bool): bv64 {
    (word << 1) | if bit then 1 else 0
  }

  predicate Within(word: bv64, mask: bv64) {
    word & !mask == 0
  }

  /** The number whose low `n` binary digits are those of the word. */
  function NatOf(word: bv64, n: nat): nat {
    if n == 0 then 0 else 2 * NatOf(Half(word), n - 1) + if Odd(word) then 1 else 0
  }

  function Half(word: bv64): bv64 {
    word >> 1
  }

  predicate Odd(word: bv64) {
    word & 1 != 0
  }

  /** The word whose low `n` binary digits are those of the number. */
  function WordOf(number: nat, n: nat): bv64 {
    if n == 0 then 0 else Shift(WordOf(number / 2, n - 1), number % 2 != 0)
  }

  /** The low `n` bits. */
  function LowBits(n: nat): bv64 {
    if n == 0 then 0 else Shift(LowBits(n - 1), true)
  }

  function Power(n: nat): nat {
    if n == 0 then 1 else 2 * Power(n - 1)
  }

  lemma ShiftWithin(word: bv64, mask: bv64, bit: bool)
    requires Within(word, mask)
    ensures Within(Shift(word, bit), Shift(mask, true))
  {
    ShiftBits(word, mask, if bit then 1 else 0);
  }

  lemma ShiftBits(word: bv64, mask: bv64, bit: bv64)
    requires word & !mask == 0 && bit <= 1
    ensures ((word << 1) | bit) & !((mask << 1) | 1) == 0
  {
  }

  lemma ZeroWithin(mask: bv64)
    ensures Within(0, mask)
  {
  }

  /** Frame numbers have 40 bits: the width of the address field. */
  lemma LowForty()
    ensures LowBits(40) == 0xFF_FFFF_FFFF
  {
    assert LowBits(8) == 0xFF;
    assert LowBits(16) == 0xFFFF;
    assert LowBits(24) == 0xFF_FFFF;
    assert LowBits(32) == 0xFFFF_FFFF;
  }

  lemma PowerForty()
    ensures Power(40) == 0x100_0000_0000
  {
    assert Power(8) == 0x100;
    assert Power(16) == 0x1_0000;
    assert Power(24) == 0x100_0000;
    assert Power(32) == 0x1_0000_0000;
  }

  lemma {:induction false} LowBitsNest(n: nat, m: nat)
    requires n <= m
    ensures Within(LowBits(n), LowBits(m))
    decreases n
  {
    hide Within, Shift;
    if n == 0 {
      ZeroWithin(LowBits(m));
    } else {
      LowBitsNest(n - 1, m - 1);
      ShiftWithin(LowBits(n - 1), LowBits(m - 1), true);
    }
  }

  lemma {:induction false} WordOfFits(number: nat, n: nat)
    ensures Within(WordOf(number, n), LowBits(n))
  {
    hide Within, Shift;
    if n == 0 {
      ZeroWithin(LowBits(n));
    } else {
      WordOfFits(number / 2, n - 1);
      ShiftWithin(WordOf(number / 2, n - 1), LowBits(n - 1), number % 2 != 0);
    }
  }

  lemma WordOfShort(number: nat, n: nat)
    requires n <= 40
    ensures WordOf(number, n) <= 0xFF_FFFF_FFFF
  {
    hide Within, Shift, WordOf, LowBits;
    WordOfFits(number, n);
    LowBitsNest(n, 40);
    LowForty();
    Inside(WordOf(number, n), LowBits(n));
  }

  lemma Inside(word: bv64, mask: bv64)
    requires Within(word, mask) && Within(mask, 0xFF_FFFF_FFFF)
    ensures word <= 0xFF_FFFF_FFFF
  {
  }

  lemma LastBit(word: bv64, bit: bool)
    requires word <= 0xFF_FFFF_FFFF
    ensures Half(Shift(word, bit)) == word && (Odd(Shift(word, bit)) <==> bit)
  {
  }

  /** Writing a number as a word and reading it back. */
  lemma {:induction false} NatOfWord(number: nat, n: nat)
    requires n <= 40 && number < Power(n)
    ensures NatOf(WordOf(number, n), n) == number
  {
    hide LowBits, Shift, Within, Half, Odd;
    if n > 0 {
      WordOfShort(number / 2, n - 1);
      LastBit(WordOf(number / 2, n - 1), number % 2 != 0);
      NatOfWord(number / 2, n - 1);
    }
  }

  /** The page number in the address field of a word. */
  function FrameNumber(word: bv64): nat {
    NatOf(AddressField(word), 40)
  }

  function AddressField(word: bv64): bv64 {
    (word & ADDRESS_MASK) >> 12
  }

  /** The physical address of a page. */
  function FrameAddress(page: nat): bv64 {
    Placed(WordOf(page, 40))
  }

  function Placed(field: bv64): bv64 {
    field << 12
  }

  lemma PlacedField(field: bv64)
    requires field <= 0xFF_FFFF_FFFF
    ensures Placed(field) & ADDRESS_MASK == Placed(field) && AddressField(Placed(field)) == field
  {
  }

  /** The address field holds every page number of the machine. */
  lemma FrameNumberOfPage(page: nat)
    requires page < 0x100_0000_0000
    ensures FrameAddress(page) & ADDRESS_MASK == FrameAddress(page) && FrameNumber(FrameAddress(page)) == page
  {
    hide NatOf, WordOf, Power, Placed, AddressField;
    WordOfShort(page, 40);
    PlacedField(WordOf(page, 40));
    PowerForty();
    NatOfWord(page, 40);
  }

  /** A word as an entry of the model. */
  function EntryOf(word: bv64): Entry<nat> {
    Numbered(Decode(word), FrameNumber(word))
  }

  /** The same fields with the frame as a page number. */
  function Numbered<F>(e: Entry<F>, page: nat): Entry<nat> {
    Entry(e.present, e.writable, e.user, e.huge, page, e.other)
  }

  /** The words that the code writes for a frame of the allocator are the entries of the model. */
  lemma WordsOfFrame(page: nat, flags: bv64, writable: bool)
    requires page < 0x100_0000_0000 && flags & ADDRESS_MASK == 0
    ensures EntryOf(TableWord(FrameAddress(page))) == TableEntry(page)
    ensures EntryOf(MapWord(FrameAddress(page), flags)) == LeafEntry(page, flags)
    ensures EntryOf(UserWord(FrameAddress(page), writable)) == LeafEntry(page, UserFlags(writable))
  {
    TableOfFrame(page);
    LeafOfFrame(page, flags);
    UserOfFrame(page, writable);
  }

  lemma TableOfFrame(page: nat)
    requires page < 0x100_0000_0000
    ensures EntryOf(TableWord(FrameAddress(page))) == TableEntry(page)
  {
    hide FrameAddress, TableWord, Decode, FrameNumber;
    FrameNumberOfPage(page);
    DecodeTable(FrameAddress(page));
    SameFrame(FrameAddress(page), TableWord(FrameAddress(page)));
  }

  lemma LeafOfFrame(page: nat, flags: bv64)
    requires page < 0x100_0000_0000 && flags & ADDRESS_MASK == 0
    ensures EntryOf(MapWord(FrameAddress(page), flags)) == LeafEntry(page, flags)
  {
    hide FrameAddress, MapWord, Decode, FrameNumber;
    FrameNumberOfPage(page);
    NoStray(FrameAddress(page), flags);
    DecodeLeaf(FrameAddress(page), flags);
    SameFrame(FrameAddress(page), MapWord(FrameAddress(page), flags));
  }

  lemma UserOfFrame(page: nat, writable: bool)
    requires page < 0x100_0000_0000
    ensures EntryOf(UserWord(FrameAddress(page), writable)) == LeafEntry(page, UserFlags(writable))
  {
    hide FrameAddress, UserWord, Decode, FrameNumber, UserFlags;
    FrameNumberOfPage(page);
    DecodeUserLeaf(FrameAddress(page), writable);
    SameFrame(FrameAddress(page), UserWord(FrameAddress(page), writable));
  }

  lemma NoStray(physical: bv64, flags: bv64)
    requires flags & ADDRESS_MASK == 0
    ensures flags & ADDRESS_MASK & !physical == 0
  {
  }

  lemma SameFrame(v: bv64, w: bv64)
    requires Decode(w).frame == v
    ensures v & ADDRESS_MASK == v && FrameNumber(w) == FrameNumber(v)
  {
    assert w & ADDRESS_MASK == v & ADDRESS_MASK;
  }

  /** Who may do what through the entry that page_table_map_user writes, and with which frame. */
  lemma UserEntry(physical: bv64, writable: bool)
    ensures var e := EntryOf(UserWord(physical, writable));
            && e.present && e.user && (e.writable <==> writable || physical & 2 != 0)
            && e.frame == FrameNumber(physical)
  {
    hide FrameNumber, UserWord;
    UserLeafOpen(physical, writable);
    SameField(UserWord(physical, writable), physical);
  }

  /** The same for page_table_map: the flags decide alone, as long as they set no address bit. */
  lemma MapEntry(physical: bv64, flags: bv64)
    ensures var e := EntryOf(MapWord(physical, flags));
            && e.present && !e.huge && (e.writable <==> flags & 2 != 0) && (e.user <==> flags & 4 != 0)
            && (flags & ADDRESS_MASK & !physical == 0 ==> e.frame == FrameNumber(physical))
  {
    hide FrameNumber, MapWord;
    LeafPresent(physical, flags);
    LeafAccess(physical, flags);
    LeafAddress(physical, flags);
    if flags & ADDRESS_MASK & !physical == 0 {
      SameField(MapWord(physical, flags), physical);
    }
  }

  lemma SameField(v: bv64, w: bv64)
    requires v & ADDRESS_MASK == w & ADDRESS_MASK
    ensures FrameNumber(v) == FrameNumber(w)
  {
  }

  /** Setting the user bit of a word sets the user field of its entry. */
  lemma EntrySetUser(word: bv64)
    ensures EntryOf(word | USER) == EntryOf(word).(user := true)
  {
    DecodeSetUser(word);
    assert AddressField(word | USER) == AddressField(word);
  }
}
