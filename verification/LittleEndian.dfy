/** Numbers of two, four and eight bytes, written out with the lowest byte first. */
module LittleEndian {
  import opened Bytes

  function Two(n: nat): seq<byte> { [n % 256, n / 0x100 % 256] }

  function Four(n: nat): seq<byte> { [n % 256, n / 0x100 % 256, n / 0x1_0000 % 256, n / 0x100_0000 % 256] }

  function Eight(n: nat): seq<byte> { Four(n) + Four(n / 0x1_0000_0000) }

  lemma TwoIs(n: nat)
    ensures Le(n, 2) == Two(n)
  {
    assert Le(n, 2) == [n % 256] + Le(n / 256, 1);
    assert Le(n / 256, 1) == [n / 256 % 256] + Le(n / 256 / 256, 0);
  }

  lemma FourIs(n: nat)
    ensures Le(n, 4) == Four(n)
  {
    assert Le(n, 4) == [n % 256] + Le(n / 256, 3);
    assert Le(n / 256, 3) == [n / 256 % 256] + Le(n / 256 / 256, 2);
    assert Le(n / 256 / 256, 2) == [n / 256 / 256 % 256] + Le(n / 256 / 256 / 256, 1);
    assert Le(n / 256 / 256 / 256, 1) == [n / 256 / 256 / 256 % 256] + Le(n / 256 / 256 / 256 / 256, 0);
    assert n / 256 / 256 == n / 0x1_0000 && n / 256 / 256 / 256 == n / 0x100_0000;
  }

  lemma EightIs(n: nat)
    ensures Le(n, 8) == Eight(n)
  {
    FourIs(n);
    FourIs(n / 0x1_0000_0000);
    LeSplits(n);
  }

  lemma LeStep(n: nat, width: nat)
    ensures Le(n, width + 1) == [n % 256] + Le(n / 256, width)
  {
  }

  lemma LeSplits(n: nat)
    ensures Le(n, 8) == Le(n, 4) + Le(n / 0x1_0000_0000, 4)
  {
    hide Le;
    LeStep(n, 7);
    LeStep(n / 0x100, 6);
    LeStep(n / 0x1_0000, 5);
    LeStep(n / 0x100_0000, 4);
    FourIs(n);
    var rest := Le(n / 0x1_0000_0000, 4);
    assert Le(n / 0x100_0000, 5) == [n / 0x100_0000 % 256] + rest;
  }
}
