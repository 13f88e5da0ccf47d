/** The layout loop of the FAT32 image writer: how many sectors each FAT copy takes, for every partition
    on which its 32-bit sums do not overflow, and when the loop ends at all. */
module Fat32Layout {

  const SECTOR: nat := 512
  const PARTITION_LBA: nat := 2048
  const RESERVED: nat := 32
  const FAT_COUNT: nat := 2
  const DISK_SECTORS: nat := 0x400_0000 / 512
  const DISK_PARTITION: nat := DISK_SECTORS - PARTITION_LBA

  function DivideRoundUp(value: nat, divisor: nat): nat
    requires divisor > 0
  {
    (value + divisor - 1) / divisor
  }

  /** The data sectors, one to a cluster, left by FAT copies of the given size. */
  function Clusters(partition: nat, fat: nat): nat
    requires RESERVED + FAT_COUNT * fat <= partition
  {
    partition - RESERVED - FAT_COUNT * fat
  }

  /** One turn of the loop: the FAT size that many clusters need. */
  function Required(partition: nat, fat: nat): nat
    requires RESERVED + FAT_COUNT * fat <= partition
  {
    DivideRoundUp((Clusters(partition, fat) + 2) * 4, SECTOR)
  }

  /** Partitions with room for two FAT copies of a sector on which nothing in the loop wraps round
      32 bits: those of 34 to 0x3FFF_FFA0 sectors. */
  predicate Sized(partition: nat) {
    RESERVED + FAT_COUNT <= partition && (partition - RESERVED) * 4 + SECTOR - 1 < 0x1_0000_0000
  }

  predicate Room(partition: nat, fat: nat) {
    fat >= 1 && RESERVED + FAT_COUNT * fat <= partition
  }

  lemma RequiredIs(partition: nat, fat: nat, r: nat)
    requires Sized(partition) && Room(partition, fat)
    ensures Required(partition, fat) == r <==> 128 * (r - 1) < partition - 30 - 2 * fat <= 128 * r
  {
    var x := (Clusters(partition, fat) + 2) * 4 + 511;
    assert Required(partition, fat) == x / 512;
    assert x == 512 * (x / 512) + x % 512;
  }

  /** The bound is exact: on a larger partition the very first turn overflows. */
  lemma SizedExact(partition: nat)
    ensures Sized(partition) <==>
              Room(partition, 1) && (Clusters(partition, 1) + 2) * 4 + SECTOR - 1 < 0x1_0000_0000
    ensures Sized(partition) <==> 34 <= partition <= 0x3FFF_FFA0
  {
  }

  /** Every turn of the loop stays inside the partition and inside 32 bits. */
  lemma RequiredHasRoom(partition: nat, fat: nat)
    requires Sized(partition) && Room(partition, fat)
    ensures Room(partition, Required(partition, fat))
    ensures (Clusters(partition, fat) + 2) * 4 + SECTOR - 1 < 0x1_0000_0000
  {
    RequiredIs(partition, fat, Required(partition, fat));
  }

  predicate Settled(partition: nat, fat: nat) {
    Room(partition, fat) && Required(partition, fat) == fat
  }

  /** The size the loop can end at, if any. */
  function Target(partition: nat): nat
    requires Sized(partition)
  {
    DivideRoundUp(partition - 30, 130)
  }

  predicate Settles(partition: nat)
    requires Sized(partition)
  {
    (partition - 30) % 130 !in {1, 2}
  }

  /** A fixpoint exists exactly for the partitions that leave no remainder of 1 or 2, and then there
      is only one. */
  lemma SettledIsTarget(partition: nat, fat: nat)
    requires Sized(partition) && Room(partition, fat)
    ensures Settled(partition, fat) <==> Settles(partition) && fat == Target(partition)
  {
    RequiredIs(partition, fat, fat);
    var n := partition - 30;
    assert n == 130 * (n / 130) + n % 130;
    TargetIs(n, fat);
  }

  lemma TargetIs(n: nat, fat: nat)
    requires n >= 4 && fat >= 1
    ensures n % 130 !in {1, 2} && fat == (n + 129) / 130 <==> 130 * fat - 128 < n <= 130 * fat
  {
    var q := n / 130;
    var r := n % 130;
    assert n == 130 * q + r;
    if r == 0 {
      assert (n + 129) / 130 == q;
    } else {
      assert (n + 129) / 130 == q + 1;
    }
    if 130 * fat - 128 < n <= 130 * fat {
      if r == 0 {
        assert fat == q;
      } else {
        assert fat == q + 1;
      }
    }
  }

  function Distance(a: int, b: int): nat {
    if a < b then b - a else a - b
  }

  /** How far the loop still has to go: at distance 1 it may first step across the fixpoint. */
  function Measure(partition: nat, fat: nat): nat
    requires Sized(partition) && Room(partition, fat)
  {
    Distance(fat, Target(partition)) + if Required(partition, fat) == Target(partition) then 0 else 1
  }

  lemma StepCloses(partition: nat, fat: nat)
    requires Sized(partition) && Room(partition, fat) && Settles(partition) && !Settled(partition, fat)
    ensures Room(partition, Required(partition, fat))
    ensures Measure(partition, Required(partition, fat)) < Measure(partition, fat)
  {
    var t := Target(partition);
    var f := Required(partition, fat);
    RequiredHasRoom(partition, fat);
    TargetSettled(partition);
    RequiredIs(partition, t, t);
    RequiredIs(partition, fat, f);
    RequiredIs(partition, f, Required(partition, f));
    RequiredIs(partition, f, t);
    RequiredIs(partition, fat, t);
    SettledIsTarget(partition, fat);
    assert Distance(f, t) <= Distance(fat, t);
  }

  lemma TargetSettled(partition: nat)
    requires Sized(partition) && Settles(partition)
    ensures Settled(partition, Target(partition))
  {
    var n := partition - 30;
    assert n == 130 * (n / 130) + n % 130;
    TargetIs(n, Target(partition));
    SettledIsTarget(partition, Target(partition));
  }

  /** The FAT size after so many turns. */
  function Turn(partition: nat, turns: nat): (fat: nat)
    requires Sized(partition)
    ensures Room(partition, fat)
    decreases turns
  {
    if turns == 0 then 1
    else
      var fat := Turn(partition, turns - 1);
      RequiredHasRoom(partition, fat);
      Required(partition, fat)
  }

  lemma {:induction false} Converges(partition: nat, turns: nat)
    requires Sized(partition) && Settles(partition)
    ensures exists more: nat :: more >= turns && Settled(partition, Turn(partition, more))
    decreases Measure(partition, Turn(partition, turns))
  {
    if !Settled(partition, Turn(partition, turns)) {
      StepCloses(partition, Turn(partition, turns));
      Converges(partition, turns + 1);
    } else {
      assert turns >= turns && Settled(partition, Turn(partition, turns));
    }
  }

  /** The loop ends exactly when the partition, less 30 sectors, leaves a remainder other than 1 or 2
      modulo 130; and then at the one fixpoint. */
  lemma LayoutEndsExactly(partition: nat)
    requires Sized(partition)
    ensures (exists turns: nat :: Settled(partition, Turn(partition, turns))) <==> Settles(partition)
    ensures forall turns: nat :: Settled(partition, Turn(partition, turns)) ==> Turn(partition, turns) == Target(partition)
  {
    forall turns: nat | Settled(partition, Turn(partition, turns))
      ensures Settles(partition) && Turn(partition, turns) == Target(partition)
    {
      SettledIsTarget(partition, Turn(partition, turns));
    }
    if Settles(partition) {
      Converges(partition, 0);
    }
  }

  /** At the fixpoint every cluster's entry lies inside its own FAT copy, no smaller copy would do,
      and the data area ends where the partition ends. */
  lemma LayoutFits(partition: nat, fat: nat)
    requires Sized(partition) && Settled(partition, fat)
    ensures var clusters := Clusters(partition, fat);
            && (clusters + 2) * 4 <= fat * SECTOR
            && (fat - 1) * SECTOR < (clusters + 2) * 4
            && RESERVED + FAT_COUNT * fat + clusters == partition
  {
    RequiredIs(partition, fat, fat);
  }

  /** This disk: 129024 sectors settle at 993. */
  lemma DiskLayout()
    ensures Sized(DISK_PARTITION) && Settles(DISK_PARTITION)
    ensures DISK_PARTITION == 129024 && Target(DISK_PARTITION) == 993 && Clusters(DISK_PARTITION, 993) == 127006
  {
    assert DISK_PARTITION == 129024;
    assert (129024 - 30) % 130 == 34;
    assert (129024 - 30 + 129) / 130 == 993;
  }
}
