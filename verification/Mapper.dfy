/** The bank switching of `src/mapper.c`: 32 MB of ROM in banks of 512 KB are seen through eight regions
    of the 4 MB the processor can address. The first region is fixed; data beyond 3 MB is mapped to the
    last two, on demand. */
module Mapper {
  import opened Machine

  const BANK_SIZE := 0x8_0000
  const NUM_BANK := 8
  const ROM_SIZE := 0x200_0000

  /** The ROM address behind address `p`, through the bank registers; nothing beyond the regions. */
  function Seen(banks: seq<nat>, p: nat): Option<nat>
    requires |banks| == NUM_BANK
  {
    if p < NUM_BANK * BANK_SIZE then Some(banks[p / BANK_SIZE] * BANK_SIZE + p % BANK_SIZE) else None
  }

  /** The block of `size` bytes at `data` is seen, byte for byte, at `p`. */
  ghost predicate Shows(banks: seq<nat>, p: nat, data: nat, size: nat)
    requires |banks| == NUM_BANK
  {
    forall i: nat :: i < size ==> SeenAt(banks, p, data, i)
  }

  ghost predicate SeenAt(banks: seq<nat>, p: nat, data: nat, i: nat)
    requires |banks| == NUM_BANK
  {
    Seen(banks, p + i) == Some(data + i)
  }

  /** The regions below the last two show the banks they start with. */
  ghost predicate Default(banks: seq<nat>) {
    |banks| == NUM_BANK && forall r :: 0 <= r < 6 ==> banks[r] == r
  }

  /** `needBankSwitch`, on the upper bits of a 32-bit address. */
  predicate NeedBankSwitch(addr: nat) {
    var upper := (addr / 0x1_0000) % 0x1_0000;
    0x30 <= upper - upper % 0x10 < 0xE0E0
  }

  /** Within the ROM, the data beyond 3 MB needs a switch. */
  lemma SwitchBeyond(addr: nat)
    requires addr < ROM_SIZE
    ensures NeedBankSwitch(addr) <==> addr >= 6 * BANK_SIZE
  {
  }

  function BankOf(addr: nat): nat {
    (addr / BANK_SIZE) % 0x40
  }

  lemma BankIs(addr: nat)
    requires addr < ROM_SIZE
    ensures BankOf(addr) == addr / BANK_SIZE < 0x40
  {
  }

  lemma AddressSplit(addr: nat, b: nat, o: nat)
    requires o < BANK_SIZE && addr == b * BANK_SIZE + o
    ensures addr / BANK_SIZE == b && addr % BANK_SIZE == o
  {
  }

  /** A block within one bank, in the region that shows this bank. */
  lemma OneBank(banks: seq<nat>, region: nat, data: nat, size: nat)
    requires |banks| == NUM_BANK && region < NUM_BANK && banks[region] == data / BANK_SIZE
    requires data % BANK_SIZE + size <= BANK_SIZE
    ensures Shows(banks, region * BANK_SIZE + data % BANK_SIZE, data, size)
  {
    var b, o := data / BANK_SIZE, data % BANK_SIZE;
    var p := region * BANK_SIZE + o;
    forall i: nat | i < size ensures SeenAt(banks, p, data, i) {
      AddressSplit(region * BANK_SIZE + o + i, region, o + i);
    }
  }

  /** A block across two banks, in two regions next to each other that show them. */
  lemma TwoBanks(banks: seq<nat>, region: nat, data: nat, size: nat)
    requires |banks| == NUM_BANK && region + 1 < NUM_BANK
    requires banks[region] == data / BANK_SIZE && banks[region + 1] == data / BANK_SIZE + 1
    requires data % BANK_SIZE + size <= 2 * BANK_SIZE
    ensures Shows(banks, region * BANK_SIZE + data % BANK_SIZE, data, size)
  {
    var b, o := data / BANK_SIZE, data % BANK_SIZE;
    var p := region * BANK_SIZE + o;
    forall i: nat | i < size ensures SeenAt(banks, p, data, i) {
      if o + i < BANK_SIZE {
        AddressSplit(region * BANK_SIZE + o + i, region, o + i);
      } else {
        AddressSplit(region * BANK_SIZE + o + i, region + 1, o + i - BANK_SIZE);
      }
    }
  }

  /** Data below 3 MB is seen where it is. */
  lemma Direct(banks: seq<nat>, data: nat, size: nat)
    requires Default(banks) && data + size <= 6 * BANK_SIZE
    ensures Shows(banks, data, data, size)
  {
    forall i: nat | i < size ensures SeenAt(banks, data, data, i) {
      var b, o := (data + i) / BANK_SIZE, (data + i) % BANK_SIZE;
      assert banks[b] == b;
    }
  }

  class Banks {
    /** The bank registers, and whether the high region is the one to use next. */
    var banks: seq<nat>
    var region: bool

    ghost predicate Valid()
      reads this
    {
      Default(banks)
    }

    constructor ()
      ensures Valid() && !region && forall r :: 0 <= r < NUM_BANK ==> banks[r] == r
    {
      banks, region := [0, 1, 2, 3, 4, 5, 6, 7], false;
    }

    /** `SYS_setBank`: region 0 is not switchable. */
    method SetBank(regionIndex: nat, bankIndex: nat)
      requires |banks| == NUM_BANK
      modifies `banks
      ensures banks == if 0 < regionIndex < NUM_BANK then old(banks)[regionIndex := bankIndex] else old(banks)
    {
      if regionIndex > 0 && regionIndex < NUM_BANK {
        banks := banks[regionIndex := bankIndex];
      }
    }

    /** `setBank`: the bank is mapped to one of the two regions, and the other one is next. */
    method MapBank(addr: nat) returns (base: nat)
      requires Valid()
      modifies this
      ensures Valid() && base == (if region then 6 else 7) * BANK_SIZE
      ensures banks[if region then 6 else 7] == BankOf(addr)
      ensures old(region) ==> banks[6] == old(banks)[6]
      ensures !old(region) ==> banks[7] == old(banks)[7]
      ensures |old(banks)| == NUM_BANK && (old(banks)[6] == BankOf(addr) || old(banks)[7] == BankOf(addr) ==> banks == old(banks))
      ensures forall r :: 0 <= r < 6 ==> banks[r] == old(banks)[r]
    {
      var bankIndex := BankOf(addr);
      if region {
        if banks[6] == bankIndex {
          region := true;
          return 0x30_0000;
        }
        if banks[7] == bankIndex {
          region := false;
          return 0x38_0000;
        }
        SetBank(7, bankIndex);
        region := false;
        return 0x38_0000;
      } else {
        if banks[7] == bankIndex {
          region := false;
          return 0x38_0000;
        }
        if banks[6] == bankIndex {
          region := true;
          return 0x30_0000;
        }
        SetBank(6, bankIndex);
        region := true;
        return 0x30_0000;
      }
    }

    /** `setBanks`: two regions for a block across banks; bank 5 needs no region of its own. */
    method MapBanks(addr: nat) returns (base: nat)
      requires Valid()
      modifies `banks
      ensures Valid()
      ensures base == (if BankOf(addr) == 5 then 5 else 6) * BANK_SIZE
      ensures banks[base / BANK_SIZE] == BankOf(addr) && banks[base / BANK_SIZE + 1] == BankOf(addr) + 1
      ensures BankOf(addr) == 5 ==> banks[7] == old(banks)[7]
    {
      var bankIndex := BankOf(addr);
      if bankIndex == 5 {
        SetBank(6, 6);
        return 0x28_0000;
      }
      SetBank(6, bankIndex + 0);
      SetBank(7, bankIndex + 1);
      return 0x30_0000;
    }

    /** `SYS_getFarData`: the rest of the bank is seen from the pointer on, and the region used last is left
        as it is. */
    method GetFarData(data: nat) returns (p: nat)
      requires Valid() && data < ROM_SIZE
      modifies this
      ensures Valid()
      ensures forall size: nat :: data % BANK_SIZE + size <= BANK_SIZE ==> Shows(banks, p, data, size)
      ensures p >= 6 * BANK_SIZE ==> p / BANK_SIZE == if region then 6 else 7
      ensures p < 6 * BANK_SIZE ==> banks == old(banks) && region == old(region)
      ensures p < 8 * BANK_SIZE && p % BANK_SIZE == data % BANK_SIZE
      ensures var last := if old(region) then 6 else 7; banks[last] == old(banks)[last]
    {
      SwitchBeyond(data);
      BankIs(data);
      if !NeedBankSwitch(data) {
        forall size: nat | data % BANK_SIZE + size <= BANK_SIZE ensures Shows(banks, data, data, size) {
          Direct(banks, data, size);
        }
        return data;
      }
      hide Shows;
      var base := MapBank(data);
      p := base + data % BANK_SIZE;
      forall size: nat | data % BANK_SIZE + size <= BANK_SIZE ensures Shows(banks, p, data, size) {
        OneBank(banks, if region then 6 else 7, data, size);
      }
    }

    /** The pointers of two calls in a row are good at the same time. */
    method GetBoth(data1: nat, size1: nat, data2: nat, size2: nat) returns (p1: nat, p2: nat)
      requires Valid() && data1 < ROM_SIZE && data2 < ROM_SIZE
      requires data1 % BANK_SIZE + size1 <= BANK_SIZE && data2 % BANK_SIZE + size2 <= BANK_SIZE
      modifies this
      ensures Valid() && Shows(banks, p1, data1, size1) && Shows(banks, p2, data2, size2)
    {
      hide Shows, Default;
      p1 := GetFarData(data1);
      ghost var before, last := banks, if region then 6 else 7;
      p2 := GetFarData(data2);
      StillSeen(before, banks, last, p1, data1, size1);
    }

    /** `SYS_getFarDataSafe`: the block is seen whole exactly when `FitsRegions` says so. */
    method GetFarDataSafe(data: nat, size: nat) returns (p: nat)
      requires Valid() && size >= 1 && data + size <= ROM_SIZE
      modifies this
      ensures Valid() && (Shows(banks, p, data, size) <==> FitsRegions(old(banks), data, size))
    {
      hide Shows;
      var end := data + (size - 1);
      SwitchBeyond(end);
      BankIs(data);
      if data / BANK_SIZE != end / BANK_SIZE {
        if !NeedBankSwitch(end) {
          Direct(banks, data, size);
          return data;
        }
        var base := MapBanks(data);
        p := base + data % BANK_SIZE;
        BaseIs(base, data);
        Across(banks, base / BANK_SIZE, data, size);
        return;
      }
      p := GetFarData(data);
    }
  }

  /** The block ends below 3 MB, or touches at most two banks; or three from bank 5 on, if the last region
      happens to show bank 7. */
  predicate FitsRegions(banks: seq<nat>, data: nat, size: nat)
    requires |banks| == NUM_BANK
  {
    || data + size <= 6 * BANK_SIZE
    || data % BANK_SIZE + size <= 2 * BANK_SIZE
    || (data / BANK_SIZE == 5 && banks[7] == 7 && data % BANK_SIZE + size <= 3 * BANK_SIZE)
  }

  /** Blocks of at most a bank's size always fit. */
  lemma SmallFits(banks: seq<nat>, data: nat, size: nat)
    requires |banks| == NUM_BANK && size <= BANK_SIZE
    ensures FitsRegions(banks, data, size)
  {
  }

  lemma BaseIs(base: nat, data: nat)
    requires base == (if BankOf(data) == 5 then 5 else 6) * BANK_SIZE
    ensures base / BANK_SIZE == if BankOf(data) == 5 then 5 else 6
    ensures base == (base / BANK_SIZE) * BANK_SIZE
  {
  }

  /** A block across banks through the regions from `region` on, 5 or 6. */
  lemma Across(banks: seq<nat>, region: nat, data: nat, size: nat)
    requires |banks| == NUM_BANK && region == (if data / BANK_SIZE == 5 then 5 else 6)
    requires banks[region] == data / BANK_SIZE && banks[region + 1] == data / BANK_SIZE + 1
    requires data + size > 6 * BANK_SIZE && data % BANK_SIZE + size > BANK_SIZE
    ensures Shows(banks, region * BANK_SIZE + data % BANK_SIZE, data, size) <==> FitsRegions(banks, data, size)
  {
    var o := data % BANK_SIZE;
    var p := region * BANK_SIZE + o;
    if o + size <= 2 * BANK_SIZE {
      TwoBanks(banks, region, data, size);
    } else if region == 6 || o + size > 3 * BANK_SIZE {
      Unseen(banks, p, data, size, NUM_BANK * BANK_SIZE - p);
    } else if banks[7] != 7 {
      assert p == data;
      Unseen(banks, p, data, size, 7 * BANK_SIZE - p);
    } else {
      FromFive(banks, data, size);
    }
  }

  lemma Unseen(banks: seq<nat>, p: nat, data: nat, size: nat, i: nat)
    requires |banks| == NUM_BANK && i < size && Seen(banks, p + i) != Some(data + i)
    ensures !Shows(banks, p, data, size)
  {
    assert !SeenAt(banks, p, data, i);
  }

  lemma FromFive(banks: seq<nat>, data: nat, size: nat)
    requires |banks| == NUM_BANK && banks[5] == 5 && banks[6] == 6 && banks[7] == 7
    requires data / BANK_SIZE == 5 && data % BANK_SIZE + size <= 3 * BANK_SIZE
    ensures Shows(banks, data, data, size)
  {
    forall i: nat | i < size ensures SeenAt(banks, data, data, i) {
      assert 5 <= (data + i) / BANK_SIZE <= 7;
    }
  }

  /** A block within a region that is not remapped stays in view. */
  lemma StillSeen(banks: seq<nat>, banks': seq<nat>, last: nat, p: nat, data: nat, size: nat)
    requires Default(banks) && Default(banks') && last < NUM_BANK && banks'[last] == banks[last]
    requires p % BANK_SIZE + size <= BANK_SIZE && (p < 6 * BANK_SIZE || p / BANK_SIZE == last)
    requires Shows(banks, p, data, size)
    ensures Shows(banks', p, data, size)
  {
    forall i: nat | i < size ensures SeenAt(banks', p, data, i) {
      assert SeenAt(banks, p, data, i);
      AddressSplit(p + i, p / BANK_SIZE, p % BANK_SIZE + i);
    }
  }
}
