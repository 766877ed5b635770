/**
 * Capacity rounding of `bdev_add`: round_up(capacity, SECTOR_SIZE) evaluated
 * in `size_t`, i.e. modulo 2^64.
 */
module SectorMath {
  import opened Machine

  const SECTOR_SIZE: nat := 512

  /**
   * The kernel's round_up(x, 512) is ((x - 1) | 511) + 1 on a 64-bit
   * unsigned type: the next multiple of 512, which wraps to 0 when it would
   * be 2^64 (and for x == 0 the two wrap-arounds cancel, giving 0).
   */
  function RoundUp(x: U64): (r: U64)
    ensures r % SECTOR_SIZE == 0
    ensures x <= U64_LIMIT - SECTOR_SIZE ==> x <= r < x + SECTOR_SIZE
    ensures x > U64_LIMIT - SECTOR_SIZE ==> r == 0
  {
    (x + SECTOR_SIZE - 1) / SECTOR_SIZE * SECTOR_SIZE % U64_LIMIT
  }

  /** A capacity that is already a multiple of the sector size is kept. */
  lemma RoundUpIdempotent(x: U64)
    ensures RoundUp(RoundUp(x)) == RoundUp(x)
  {
    var r := RoundUp(x);
    assert r <= U64_LIMIT - SECTOR_SIZE;
    var q := r / SECTOR_SIZE;
    assert r == q * SECTOR_SIZE;
    assert (r + SECTOR_SIZE - 1) / SECTOR_SIZE == q;
  }

  /** 1,000,000 bytes become 1,954 sectors of 512 bytes. */
  lemma RoundUpMillion()
    ensures RoundUp(1_000_000) == 1_000_448
  {
  }
}

/**
 * Device names: snprintf(name, BDEV_NAME_SZ, "%s_%u", BDEV_NAME, minor) into
 * a zero-initialised 20-byte array.
 */
module DevName {
  import opened Machine
  import opened Ctrl

  const BDEV_NAME: string := "mbdev"

  /** `%u`: the decimal digits of `n`, most significant first, as ASCII. */
  function Decimal(n: nat): (r: seq<Byte>)
    ensures |r| >= 1
    ensures forall i :: 0 <= i < |r| ==> '0' as int <= r[i] <= '9' as int
    ensures n < 10 ==> |r| == 1
    ensures 10 <= n < 100 ==> |r| == 2
    ensures 100 <= n < 1000 ==> |r| == 3
  {
    if n < 10 then ['0' as int + n] else Decimal(n / 10) + ['0' as int + n % 10]
  }

  /** Reads a run of ASCII digits back as a number. */
  function ParseDecimal(s: seq<Byte>): nat
  {
    if s == [] then 0
    else
      var d := s[|s| - 1] - '0' as int;
      ParseDecimal(s[..|s| - 1]) * 10 + (if d < 0 then 0 else d)
  }

  lemma {:induction false} ParseDecimalInverts(n: nat)
    ensures ParseDecimal(Decimal(n)) == n
  {
    var s := Decimal(n);
    if n >= 10 {
      assert s[..|s| - 1] == Decimal(n / 10);
      ParseDecimalInverts(n / 10);
    }
  }

  /** The text "mbdev_<minor>" before any truncation. */
  function FullName(minor: nat): (r: seq<Byte>)
    ensures forall i :: 0 <= i < |r| ==> r[i] != 0
  {
    Ascii(BDEV_NAME) + Ascii("_") + Decimal(minor)
  }

  /**
   * The 20-byte name field: snprintf keeps at most 19 characters, and the
   * rest of the zero-initialised array stays NUL.
   */
  function NameField(minor: nat): (r: seq<Byte>)
    ensures |r| == BDEV_NAME_SZ && r[BDEV_NAME_SZ - 1] == 0
  {
    var full := FullName(minor);
    var kept := if |full| < BDEV_NAME_SZ then full else full[..BDEV_NAME_SZ - 1];
    kept + Zeros(BDEV_NAME_SZ - |kept|)
  }

  /** Every minor of the 256-slot universe fits untruncated, "mbdev_255" included. */
  lemma NameFits(minor: nat)
    requires minor < BDEV_MAX_SZ
    ensures |FullName(minor)| <= 9 < BDEV_NAME_SZ
    ensures CString(NameField(minor)) == FullName(minor)
  {
    var full := FullName(minor);
    assert |full| <= 9;
    CStringOfPadded(full, BDEV_NAME_SZ - |full|);
  }

  lemma Decimal255()
    ensures Decimal(255) == [50, 53, 53]
  {
    assert Decimal(25) == [50, 53] by {
      assert Decimal(2) == [50];
    }
  }

  lemma NamePrefix()
    ensures Ascii(BDEV_NAME) + Ascii("_") == [109, 98, 100, 101, 118, 95]
  {
    assert Ascii(BDEV_NAME) == [109, 98, 100, 101, 118];
  }

  lemma FullName255()
    ensures FullName(255) == Ascii("mbdev_255")
  {
    Decimal255();
    NamePrefix();
    assert FullName(255) == [109, 98, 100, 101, 118, 95] + [50, 53, 53];
    assert Ascii("mbdev_255") == [109, 98, 100, 101, 118, 95, 50, 53, 53];
  }

  /** The largest minor's name, as the client prints it: "mbdev_255". */
  lemma NameOf255()
    ensures CString(NameField(255)) == Ascii("mbdev_255")
  {
    NameFits(255);
    FullName255();
  }

  /** Distinct minors get distinct names. */
  lemma NameInjective(a: nat, b: nat)
    requires a < BDEV_MAX_SZ && b < BDEV_MAX_SZ
    requires NameField(a) == NameField(b)
    ensures a == b
  {
    NameFits(a);
    NameFits(b);
    var p := |Ascii(BDEV_NAME) + Ascii("_")|;
    assert FullName(a)[p..] == Decimal(a);
    assert FullName(b)[p..] == Decimal(b);
    ParseDecimalInverts(a);
    ParseDecimalInverts(b);
  }
}
