/**
 The hash of a directory entry's name (ext4_htree_name_hash32 in fs/ext4/htree.c, the legacy version
 with signed and with unsigned characters), and two names that share one.
 */
module NameHash {
  import opened DirBlock

  /** One round of dx_hack_hash, in 32-bit arithmetic. */
  function Mix(hash0: bv32, hash1: bv32, c: bv32): bv32 {
    var hash := hash1 + (hash0 ^ (c * 7152373));
    if hash & 0x8000_0000 != 0 then hash - 0x7fff_ffff else hash
  }

  /** A character of the name as an int, converted to 32 unsigned bits. */
  function Wide(c: byte, signed: bool): bv32 {
    if signed && c >= 0x80 then (c as bv32) - 0x100 else c as bv32
  }

  function Rounds(name: seq<byte>, signed: bool, hash0: bv32, hash1: bv32): bv32
    decreases |name|
  {
    if name == [] then hash0 else Rounds(name[1..], signed, Mix(hash0, hash1, Wide(name[0], signed)), hash0)
  }

  /** The last bit is cleared, so the replacement of 0xffffffff (line 159) never strikes. */
  function Hash32(name: seq<byte>, signed: bool): nat {
    ((Rounds(name, signed, 0x12a3_fe2d, 0x37ab_e8f9) << 1) & 0xffff_fffe) as nat
  }

  /** "vff" and "vgg" */
  const VFF: seq<byte> := [0x76, 0x66, 0x66]
  const VGG: seq<byte> := [0x76, 0x67, 0x67]

  lemma Collide(signed: bool)
    ensures VFF != VGG && Hash32(VFF, signed) == Hash32(VGG, signed)
  {
    assert VFF[1] != VGG[1];
    hide Mix, Wide, Rounds;
    SameMix();
    WideAscii(signed);
    ThreeRounds(0x76, 0x66, 0x66, signed);
    ThreeRounds(0x76, 0x67, 0x67, signed);
  }

  /** The two versions differ on characters from 128 on. */
  lemma TwoVersions()
    ensures Hash32([0x80], true) == 0x26f2_c94c && Hash32([0x80], false) == 0xb7bc_db4c
  {
    HighMix();
    OneRound(0x80, true, 0x1379_64a6);
    OneRound(0x80, false, 0x5bde_6da6);
  }

  lemma OneRound(c: byte, signed: bool, mixed: bv32)
    requires Mix(0x12a3_fe2d, 0x37ab_e8f9, Wide(c, signed)) == mixed
    ensures Hash32([c], signed) == ((mixed << 1) & 0xffff_fffe) as nat
  {
    hide Mix, Wide;
    assert [c][1..] == [];
    assert Rounds([c], signed, 0x12a3_fe2d, 0x37ab_e8f9) == Rounds([], signed, mixed, 0x12a3_fe2d);
  }

  lemma HighMix()
    ensures Mix(0x12a3_fe2d, 0x37ab_e8f9, Wide(0x80, true)) == 0x1379_64a6
    ensures Mix(0x12a3_fe2d, 0x37ab_e8f9, Wide(0x80, false)) == 0x5bde_6da6
  {
    hide Mix, Wide;
    WideHigh();
    HighRound();
  }

  lemma WideHigh()
    ensures Wide(0x80, true) == 0xffff_ff80 && Wide(0x80, false) == 0x80
  {
  }

  lemma HighRound()
    ensures Mix(0x12a3_fe2d, 0x37ab_e8f9, 0xffff_ff80) == 0x1379_64a6
    ensures Mix(0x12a3_fe2d, 0x37ab_e8f9, 0x80) == 0x5bde_6da6
  {
  }

  lemma SameMix()
    ensures Mix(0x12a3_fe2d, 0x37ab_e8f9, 0x76) == 0x5899_cbbc
    ensures Mix(0x5899_cbbc, 0x12a3_fe2d, 0x66) == 0x0686_2450 && Mix(0x0686_2450, 0x5899_cbbc, 0x66) == 0x0697_958b
    ensures Mix(0x5899_cbbc, 0x12a3_fe2d, 0x67) == 0x0614_d95d && Mix(0x0614_d95d, 0x5899_cbbc, 0x67) == 0x0697_958b
  {
  }

  lemma WideAscii(signed: bool)
    ensures Wide(0x76, signed) == 0x76 && Wide(0x66, signed) == 0x66 && Wide(0x67, signed) == 0x67
  {
  }

  lemma ThreeRounds(a: byte, b: byte, c: byte, signed: bool)
    ensures Rounds([a, b, c], signed, 0x12a3_fe2d, 0x37ab_e8f9) ==
            var x := Mix(0x12a3_fe2d, 0x37ab_e8f9, Wide(a, signed));
            var y := Mix(x, 0x12a3_fe2d, Wide(b, signed));
            Mix(y, x, Wide(c, signed))
  {
    hide Mix, Wide;
    var x := Mix(0x12a3_fe2d, 0x37ab_e8f9, Wide(a, signed));
    var y := Mix(x, 0x12a3_fe2d, Wide(b, signed));
    assert [a, b, c][1..] == [b, c] && [b, c][1..] == [c] && [c][1..] == [];
    assert Rounds([a, b, c], signed, 0x12a3_fe2d, 0x37ab_e8f9) == Rounds([b, c], signed, x, 0x12a3_fe2d);
    assert Rounds([b, c], signed, x, 0x12a3_fe2d) == Rounds([c], signed, y, x);
    assert Rounds([c], signed, y, x) == Rounds([], signed, Mix(y, x, Wide(c, signed)), y);
  }
}
