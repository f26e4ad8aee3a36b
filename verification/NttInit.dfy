/** The tables of the transform as they are set up: five moduli with their roots of order 2^51. */
module NttInit {
  import opened Arith
  import opened Limbs
  import opened LimbMul
  import opened Bits
  import opened ModWords
  import opened PolySums
  import opened NttTables

  const NB_MODS: nat := 5

  /** ntt_mods. */
  const NTT_MODS: seq<Limb> :=
    [0x28d8000000000001, 0x2a88000000000001, 0x2ed8000000000001, 0x3508000000000001,
     0x3aa8000000000001]

  /** ntt_proot, forward and inverse. */
  const NTT_PROOT: seq<Limb> :=
    [0x1b8ea61034a2bea7, 0x21a9762de58206fb, 0x02ca782f0756a8ea, 0x278384537a3e50a1,
     0x106e13fee74ce0ab]

  const NTT_PROOT_INV: seq<Limb> :=
    [0x233513af133e13b8, 0x1d13140d1c6f75f1, 0x12cde57f97e3eeda, 0x0d6149e23cbe654f,
     0x36cd204f522a1379]

  // ----- the roots -----

  /** Five squarings modulo m. */
  ghost predicate FiveSquares(c0: int, c1: int, c2: int, c3: int, c4: int, c5: int, m: int)
    requires m > 0
  {
    c0 * c0 % m == c1 && c1 * c1 % m == c2 && c2 * c2 % m == c3 && c3 * c3 % m == c4 && c4 * c4 % m == c5
  }

  lemma {:induction false} SquareStep(w: int, t: nat, c: int, d: int, m: int)
    requires m > 0 && Cong(Exp(w, Pow2(t)), c, m) && c * c % m == d
    ensures Cong(Exp(w, Pow2(t + 1)), d, m)
  {
    hide Cong, Exp;
    ExpAdd(w, Pow2(t), Pow2(t));
    assert Pow2(t + 1) == Pow2(t) + Pow2(t);
    CongMul(Exp(w, Pow2(t)), c, Exp(w, Pow2(t)), c, m);
    CongMod(c * c, m);
    CongSym(d, c * c, m);
    CongTrans(Exp(w, Pow2(t + 1)), c * c, d, m);
  }

  lemma {:induction false} FiveSteps(w: int, t: nat, c0: int, c1: int, c2: int, c3: int, c4: int, c5: int, m: int)
    requires m > 0 && Cong(Exp(w, Pow2(t)), c0, m) && FiveSquares(c0, c1, c2, c3, c4, c5, m)
    ensures Cong(Exp(w, Pow2(t + 5)), c5, m)
  {
    hide Cong, Exp, Pow2;
    SquareStep(w, t, c0, c1, m);
    SquareStep(w, t + 1, c1, c2, m);
    SquareStep(w, t + 2, c2, c3, m);
    SquareStep(w, t + 3, c3, c4, m);
    SquareStep(w, t + 4, c4, c5, m);
  }

  lemma {:induction false} FirstPower(w: int, m: int)
    requires m > 0
    ensures Cong(Exp(w, Pow2(0)), w, m)
  {
    ExpOne(w);
    CongSelf(w, m);
  }

  lemma {:induction false} MinusOne(w: int, c: int, m: int)
    requires m > 0 && Cong(Exp(w, Pow2(50)), c, m) && c == m - 1
    ensures Root(w, 51, m)
  {
    hide Cong, Exp, Pow2;
    CongFrom(c, -1, m, 1);
    CongTrans(Exp(w, Pow2(50)), c, -1, m);
  }

  /** The inverse of a root is a root. */
  lemma {:induction false} InverseRoot(w: int, v: int, k: nat, m: int)
    requires m > 0 && Root(w, k, m) && Cong(w * v, 1, m)
    ensures Root(v, k, m)
  {
    hide Cong, Exp, Pow2;
    var h := Pow2(k - 1);
    var a, b := Exp(w, h), Exp(v, h);
    ExpProduct(w, v, h);
    ExpCong(w * v, 1, h, m);
    OneExp(h);
    CongSelf(b, m);
    CongMul(a, -1, b, b, m);
    CongSym(a * b, -b, m);
    CongTrans(-b, a * b, 1, m);
    CongSelf(0, m);
    CongAdd(0, 0, -b, 1, m);
  }

  lemma {:induction false} Root0()
    ensures Root(0x1b8ea61034a2bea7, 51, 0x28d8000000000001)
  {
    hide Cong, Exp, Pow2, Root;
    var m, w := 0x28d8000000000001, 0x1b8ea61034a2bea7;
    FirstPower(w, m);
    FiveSteps(w, 0, 0x1b8ea61034a2bea7, 0x11bf2acc9c713d40, 0x117ecd40b8f23ce3,
              0x045ca06b7dd55768, 0x2063daa5f3ab2b8f, 0x1a8676cd7378a4a2, m);
    FiveSteps(w, 5, 0x1a8676cd7378a4a2, 0x0078addfbaf5d977, 0x1af47adc2454618d,
              0x0d47e59d2827ff15, 0x066b730a50ae367d, 0x27c9981f5b3ed347, m);
    FiveSteps(w, 10, 0x27c9981f5b3ed347, 0x0765065a915fa984, 0x0b1428bc341579c0,
              0x01ee40846a81bd08, 0x0ce74593826adfd0, 0x04604dfcc67800f8, m);
    FiveSteps(w, 15, 0x04604dfcc67800f8, 0x250ce92091a519ae, 0x09ad967836a0d03d,
              0x0f79df39b7a793dd, 0x1020b13077495562, 0x0808861f0e23310c, m);
    FiveSteps(w, 20, 0x0808861f0e23310c, 0x1881d30f64dde1b2, 0x0ba18994b0308683,
              0x02bc9718ea5abba3, 0x1ba0869095d3d799, 0x06d7161052ed33c7, m);
    FiveSteps(w, 25, 0x06d7161052ed33c7, 0x25ee3bd9c046a388, 0x00524cb3892ce2ac,
              0x21e3892da47bfed1, 0x1a6a218533869415, 0x1e40f499a11e5c2f, m);
    FiveSteps(w, 30, 0x1e40f499a11e5c2f, 0x1eea26409f9fadd8, 0x029490b7904c808c,
              0x0381b45240bee56d, 0x0be930411abbd7ef, 0x1b2cc404c1f00eab, m);
    FiveSteps(w, 35, 0x1b2cc404c1f00eab, 0x1b758c419b9072ed, 0x0931dd93b729b453,
              0x224524552b855f94, 0x1020098506d09868, 0x19865c9022733918, m);
    FiveSteps(w, 40, 0x19865c9022733918, 0x1480b64fff3cb853, 0x16070c056f2e8ff4,
              0x1620b4151aecbd96, 0x03420ab6137bbd61, 0x2719ec745b89fb2d, m);
    FiveSteps(w, 45, 0x2719ec745b89fb2d, 0x276d1af9b2668e7b, 0x225c203ea7b1acc0,
              0x240936938e1ab821, 0x22ddbb3c2ad555da, 0x28d8000000000000, m);
    MinusOne(w, 0x28d8000000000000, m);
  }

  lemma {:induction false} Root1()
    ensures Root(0x21a9762de58206fb, 51, 0x2a88000000000001)
  {
    hide Cong, Exp, Pow2, Root;
    var m, w := 0x2a88000000000001, 0x21a9762de58206fb;
    FirstPower(w, m);
    FiveSteps(w, 0, 0x21a9762de58206fb, 0x0c115151fccaa3b6, 0x1933cae903d6df84,
              0x18ced8f84565af47, 0x10d701bec133727f, 0x0f78a7db7410d9f9, m);
    FiveSteps(w, 5, 0x0f78a7db7410d9f9, 0x16e656d8509df599, 0x188bef80e2704c11,
              0x1c318b73df288f7a, 0x0262a41498b083a7, 0x095660e210288c6a, m);
    FiveSteps(w, 10, 0x095660e210288c6a, 0x0d97b8fe678e8d34, 0x0a46e05bdca82f31,
              0x13f1190692921afa, 0x110b6c5ed7a45289, 0x29d6f683253995cf, m);
    FiveSteps(w, 15, 0x29d6f683253995cf, 0x0fd60a2a200f9c26, 0x2738a11d5cd1c02c,
              0x13391b2515ab46f8, 0x13e82823a00faf4b, 0x2453b59951f862eb, m);
    FiveSteps(w, 20, 0x2453b59951f862eb, 0x20208e091c61e871, 0x19109e9184890ca7,
              0x16a696d4620b5233, 0x112c70cff4f937c8, 0x23cbffd3ac83c407, m);
    FiveSteps(w, 25, 0x23cbffd3ac83c407, 0x28ed6ee4f7941100, 0x1f7efd54d99ae8f3,
              0x0f9234a42f60ed3d, 0x16361632299e1269, 0x08dfc85ec8f66421, m);
    FiveSteps(w, 30, 0x08dfc85ec8f66421, 0x162affd6d19e3f6d, 0x1ba70f27ded992c5,
              0x00c74896769ae521, 0x078c95dc9fe7d84e, 0x26f15b9d4656e9fe, m);
    FiveSteps(w, 35, 0x26f15b9d4656e9fe, 0x211501d49e89e6db, 0x13d5227e55bcd481,
              0x02b4e46443b48209, 0x09b98236f89da2c7, 0x25b15c692eacff82, m);
    FiveSteps(w, 40, 0x25b15c692eacff82, 0x12fe079fb471ccf6, 0x1c7f25769cdefca6,
              0x19458bb7142589e2, 0x01044bb49e3593fb, 0x0a951fcee81e1917, m);
    FiveSteps(w, 45, 0x0a951fcee81e1917, 0x10ae703a3f62fd23, 0x0bac4480425c3eec,
              0x146bd875e06a2fc4, 0x236e45c7a9102530, 0x2a88000000000000, m);
    MinusOne(w, 0x2a88000000000000, m);
  }

  lemma {:induction false} Root2()
    ensures Root(0x02ca782f0756a8ea, 51, 0x2ed8000000000001)
  {
    hide Cong, Exp, Pow2, Root;
    var m, w := 0x2ed8000000000001, 0x02ca782f0756a8ea;
    FirstPower(w, m);
    FiveSteps(w, 0, 0x02ca782f0756a8ea, 0x07f8af468fa96c01, 0x2893e1a955313b47,
              0x119875c71c305e20, 0x0fea39f4f588e372, 0x03616ec68cc63a53, m);
    FiveSteps(w, 5, 0x03616ec68cc63a53, 0x1dd280e8ca562289, 0x089b4335356f5ba9,
              0x0046e97af40d727e, 0x0c73b3b44a90e273, 0x061dfe8ca6992956, m);
    FiveSteps(w, 10, 0x061dfe8ca6992956, 0x1d3e5bdaac52234d, 0x1575c284b0956e53,
              0x15be952d05199cd2, 0x1847a2dddac12664, 0x0962b718917de5a0, m);
    FiveSteps(w, 15, 0x0962b718917de5a0, 0x1d0441ae2fbb4b0e, 0x10bc206b633195d3,
              0x00d4e22f9033841f, 0x2ba776ed50d8b268, 0x2783d493568cb20b, m);
    FiveSteps(w, 20, 0x2783d493568cb20b, 0x292654bbfb073949, 0x0b0aea6ed03a0b36,
              0x1f4c53ba8b9be4fe, 0x1186c4d8d6712ea1, 0x2883edd0b24d7431, m);
    FiveSteps(w, 25, 0x2883edd0b24d7431, 0x133a9d8b542f301b, 0x1345aa59bc4d4ab9,
              0x15517f78be3ba004, 0x167add39f82a332c, 0x126cd52ee5f02406, m);
    FiveSteps(w, 30, 0x126cd52ee5f02406, 0x002f285446e0e92d, 0x2644ab2c4cd4e358,
              0x0c2993c49ed39235, 0x09fc2f6fc81e4e61, 0x185e1567702365d4, m);
    FiveSteps(w, 35, 0x185e1567702365d4, 0x15c2be1efb484f5a, 0x03173e6d0fed32fb,
              0x2c1a707e395ae3bc, 0x2c985ac26b3d5b61, 0x2956b4b2229d8a8b, m);
    FiveSteps(w, 40, 0x2956b4b2229d8a8b, 0x2e5f530afca3420d, 0x03d58c348242857b,
              0x11120bcfa53759b0, 0x0f680f483975f033, 0x22f1a7a7bbadcd3b, m);
    FiveSteps(w, 45, 0x22f1a7a7bbadcd3b, 0x1970ef6c9cbcd317, 0x14bc81fbda4489b1,
              0x1fbd441fe5e70563, 0x15ebb0edef885436, 0x2ed8000000000000, m);
    MinusOne(w, 0x2ed8000000000000, m);
  }

  lemma {:induction false} Root3()
    ensures Root(0x278384537a3e50a1, 51, 0x3508000000000001)
  {
    hide Cong, Exp, Pow2, Root;
    var m, w := 0x3508000000000001, 0x278384537a3e50a1;
    FirstPower(w, m);
    FiveSteps(w, 0, 0x278384537a3e50a1, 0x0d82aa94862db309, 0x17c5b1d8edc947b5,
              0x1f0991d2b810c767, 0x158dad655569cce8, 0x343a21dd03b176d0, m);
    FiveSteps(w, 5, 0x343a21dd03b176d0, 0x0bd704064191e73e, 0x30d37af324a91bf3,
              0x10c457f05ef48610, 0x336d9c346ad224cd, 0x00c5ddfd400bd872, m);
    FiveSteps(w, 10, 0x00c5ddfd400bd872, 0x1215afd41184f7b4, 0x1dca774d45bb85bb,
              0x2590abd47f6f2b7b, 0x3431c6d1a0e183d2, 0x2ba9d15184e56f91, m);
    FiveSteps(w, 15, 0x2ba9d15184e56f91, 0x0a077f0e808f55e7, 0x10e4aca6fe02a647,
              0x27a6aad24167a986, 0x2ad8532952214a5d, 0x197defb964696287, m);
    FiveSteps(w, 20, 0x197defb964696287, 0x0b87fab71e36ea1a, 0x1690822d1f88258f,
              0x1e52d2eacbc69b26, 0x0eb3bb6912cb9ea0, 0x077bb40c803c1315, m);
    FiveSteps(w, 25, 0x077bb40c803c1315, 0x2013203188e97741, 0x18d07bde7b143666,
              0x334456414536a778, 0x08dc7997ac088ab6, 0x1ac41ca88e35b838, m);
    FiveSteps(w, 30, 0x1ac41ca88e35b838, 0x11c342f956abb257, 0x07fc7ef283fe83b4,
              0x24e0c3613c97a76a, 0x0f2aad0a6ea1df84, 0x113ef3259d22e0e7, m);
    FiveSteps(w, 35, 0x113ef3259d22e0e7, 0x080798a2565138f9, 0x33d53835ce5bc3ad,
              0x0f532653e3b244ce, 0x0c39b4ae0e71ff75, 0x2484f63c7f3a0060, m);
    FiveSteps(w, 40, 0x2484f63c7f3a0060, 0x2d85376e2b036871, 0x2ac7b1f3aa076f6e,
              0x0c62d8c29ed3e71c, 0x22b72fb700b997ff, 0x0477b150e0cdd0d0, m);
    FiveSteps(w, 45, 0x0477b150e0cdd0d0, 0x082a9b91aafa024c, 0x1255b0fb439fed7f,
              0x12b6abe6c05ea197, 0x1639a4efab5872e6, 0x3508000000000000, m);
    MinusOne(w, 0x3508000000000000, m);
  }

  lemma {:induction false} Root4()
    ensures Root(0x106e13fee74ce0ab, 51, 0x3aa8000000000001)
  {
    hide Cong, Exp, Pow2, Root;
    var m, w := 0x3aa8000000000001, 0x106e13fee74ce0ab;
    FirstPower(w, m);
    FiveSteps(w, 0, 0x106e13fee74ce0ab, 0x2ab4e3986f2ee22c, 0x099040fca134ac6b,
              0x117d12ab5ecb3741, 0x07d5f7dc1c1f064c, 0x34744e3bc14f85e3, m);
    FiveSteps(w, 5, 0x34744e3bc14f85e3, 0x0fd68f624aa11dbb, 0x18686bf84cb33e74,
              0x3530cf4f724d4754, 0x0500c9b305228d71, 0x13ea5d9520df4233, m);
    FiveSteps(w, 10, 0x13ea5d9520df4233, 0x0df5a5ca37b8046e, 0x0396e257658ca538,
              0x06e738d90aaf4949, 0x154a5bd6583090cf, 0x16605fa7ea67abaa, m);
    FiveSteps(w, 15, 0x16605fa7ea67abaa, 0x29528a36b3b3ad3e, 0x00b445908ec80a80,
              0x38cd2dec35b1a093, 0x37a3654336860829, 0x16d4e6036332f01f, m);
    FiveSteps(w, 20, 0x16d4e6036332f01f, 0x21deac0f1b7c42e3, 0x37d19eb869380dee,
              0x35f275215541e0fa, 0x37a7a16e0d67f70b, 0x0a6b48a027ed9cb0, m);
    FiveSteps(w, 25, 0x0a6b48a027ed9cb0, 0x1af75487599c3922, 0x17aee30790b9e2b3,
              0x1de18789eb23e9e0, 0x0f54a92367f882db, 0x1e99135084ab55df, m);
    FiveSteps(w, 30, 0x1e99135084ab55df, 0x2c8dcbb44789fc3d, 0x1bbbb5ff84595c2b,
              0x210be1ecd56e9b43, 0x31cf0e77383bda15, 0x230389d03a9741a9, m);
    FiveSteps(w, 35, 0x230389d03a9741a9, 0x2c01d728b756e204, 0x1b1a6ae0e8214e50,
              0x3a19a8749981d638, 0x38236c52f5edb34c, 0x2d6d4ea45938d2da, m);
    FiveSteps(w, 40, 0x2d6d4ea45938d2da, 0x2af11c7b4888771b, 0x2e7b6c570b501118,
              0x339a275f79ea4bbd, 0x376da315b593dc22, 0x0b831418ae2216ee, m);
    FiveSteps(w, 45, 0x0b831418ae2216ee, 0x1acd71a3bfdfd8de, 0x0226a78b52d57311,
              0x341060b345a6187d, 0x0190871e7f52cc53, 0x3aa8000000000000, m);
    MinusOne(w, 0x3aa8000000000000, m);
  }

  /** A modulus with a root of order 2^51 and its inverse. */
  ghost predicate GoodConstants(m: Limb, w: Limb, v: Limb) {
    Modulus(m) && m % 2 == 1 && w < m && v < m && Root(w, 51, m) && Root(v, 51, m) && Cong(w * v, 1, m)
  }

  lemma {:induction false} ProductIsOne(w: int, v: int, m: int)
    requires m > 1 && w * v % m == 1
    ensures Cong(w * v, 1, m)
  {
    CongMod(w * v, m);
    CongSym(1, w * v, m);
  }

  lemma {:induction false} Good(m: Limb, w: Limb, v: Limb)
    requires Modulus(m) && m % 2 == 1 && w < m && v < m && Root(w, 51, m) && w * v % m == 1
    ensures GoodConstants(m, w, v)
  {
    ProductIsOne(w, v, m);
    InverseRoot(w, v, 51, m);
  }

  /** Every modulus comes with a root of order 2^51 and its inverse. */
  lemma {:induction false} Constants(j: nat)
    requires j < NB_MODS
    ensures GoodConstants(NTT_MODS[j], NTT_PROOT[j], NTT_PROOT_INV[j])
  {
    hide Cong, Root, GoodConstants;
    if j == 0 {
      Root0();
    } else if j == 1 {
      Root1();
    } else if j == 2 {
      Root2();
    } else if j == 3 {
      Root3();
    } else {
      Root4();
    }
    Good(NTT_MODS[j], NTT_PROOT[j], NTT_PROOT_INV[j]);
  }

  // ----- the tables -----

  lemma {:induction false} HalfIsInverse(m: int, h: int)
    requires m > 1 && m % 2 == 1 && h == (m + 1) / 2
    ensures 0 < h < m && Cong(h * 2, 1, m)
  {
    CongFrom(h * 2, 1, m, 1);
  }

  lemma {:induction false} NextLength(c: int, h: int, i: nat, m: int)
    requires m > 0 && Cong(c * Pow2(i), 1, m) && Cong(h * 2, 1, m)
    ensures Cong(c * h % m * Pow2(i + 1), 1, m)
  {
    hide Cong;
    var p := Pow2(i);
    CongMul(c * p, 1, h * 2, 1, m);
    assert (c * p) * (h * 2) == c * h * (2 * p) by {
      FourProduct(c, p, h, 2);
      assert p * 2 == 2 * p;
    }
    CongMod(c * h, m);
    CongSelf(2 * p, m);
    CongMul(c * h % m, c * h, 2 * p, 2 * p, m);
    CongTrans(c * h % m * (2 * p), c * h * (2 * p), 1, m);
  }

  /** The inverse of every 2^i. */
  method InitLengths(m: Limb, mInv: Limb) returns (t: seq<Prepared>)
    requires Modulus(m) && m % 2 == 1 && mInv == InitMulModFast(m)
    ensures m > 0 && |t| == NTT_PROOT_2EXP + 1
    ensures forall k :: 0 <= k <= NTT_PROOT_2EXP ==> Ready(t[k], m) && Cong(t[k].value * Pow2(k), 1, m)
  {
    assert 1 < m < MOD_MAX;
    hide Cong, Ready, Modulus, Pow2, InitMulModFast, InitMulModFast2;
    var cInv2: Limb := (m + 1) / 2;
    var cInv: Limb := 1;
    HalfIsInverse(m, cInv2);
    OnePow2(0);
    CongSelf(1, m);
    t := [];
    for i := 0 to NTT_PROOT_2EXP + 1
      invariant |t| == i && cInv < m && Cong(cInv * Pow2(i), 1, m)
      invariant forall k :: 0 <= k < i ==> Ready(t[k], m) && Cong(t[k].value * Pow2(k), 1, m)
    {
      t := t + [Prepare(cInv, m)];
      NextLength(cInv, cInv2, i, m);
      WordProduct(cInv, cInv2, m);
      cInv := MulModFast(cInv, cInv2, m, mInv);
    }
  }

  lemma {:induction false} WordProduct(a: int, b: int, m: int)
    requires Modulus(m) && 0 <= a < m && 0 <= b < m
    ensures 0 <= a * b < B * MOD_MIN && 0 <= a * b % m < m
  {
    MulNonneg(a, b);
    MulLe(a, MOD_MAX, b);
    MulLe(b, MOD_MAX, MOD_MAX);
    DivMod(a * b, m);
  }

  /** The entries above k of a table of roots. */
  ghost predicate RootsAbove(t: seq<Prepared>, k: nat, m: Limb)
    requires m > 0 && |t| == NTT_PROOT_2EXP + 1
  {
    forall i :: k < i <= NTT_PROOT_2EXP ==> RootAt(t, i, m)
  }

  ghost predicate RootAt(t: seq<Prepared>, i: nat, m: Limb)
    requires m > 0 && 1 <= i < |t|
  {
    && Ready(t[i], m) && Root(t[i].value, i, m)
    && (i + 1 < |t| ==> Cong(Exp(t[i + 1].value, 2), t[i].value, m))
  }

  lemma {:induction false} SquareIsExp(c: int, m: int)
    requires m > 0
    ensures Cong(Exp(c, 2), c * c % m, m)
  {
    ExpOne(c);
    assert Exp(c, 2) == c * Exp(c, 1);
    CongMod(c * c, m);
    CongSym(c * c % m, c * c, m);
  }

  lemma {:induction false} RootCong(x: int, y: int, k: nat, m: int)
    requires m > 0 && Root(x, k, m) && Cong(x, y, m)
    ensures Root(y, k, m)
  {
    hide Cong, Exp, Pow2;
    var h := Pow2(k - 1);
    ExpCong(x, y, h, m);
    CongSym(Exp(x, h), Exp(y, h), m);
    CongTrans(Exp(y, h), Exp(x, h), -1, m);
  }

  lemma {:induction false} SquareIsRoot(c: int, k: nat, m: int)
    requires m > 0 && k >= 2 && Root(c, k, m)
    ensures Root(c * c % m, k - 1, m) && Cong(Exp(c, 2), c * c % m, m)
  {
    hide Root, Cong;
    SquaredRoot(c, k, m);
    SquareIsExp(c, m);
    RootCong(Exp(c, 2), c * c % m, k - 1, m);
  }

  /** One more entry, below the others. */
  lemma {:induction false} RootStored(t: seq<Prepared>, k: nat, p: Prepared, m: Limb)
    requires m > 0 && |t| == NTT_PROOT_2EXP + 1 && 1 <= k <= NTT_PROOT_2EXP && RootsAbove(t, k, m)
    requires Ready(p, m) && Root(p.value, k, m)
    requires k + 1 < |t| ==> Cong(Exp(t[k + 1].value, 2), p.value, m)
    ensures RootsAbove(t[k := p], k - 1, m)
  {
    hide Cong, Root, Ready, Exp;
    var t' := t[k := p];
    forall i | k - 1 < i <= NTT_PROOT_2EXP
      ensures RootAt(t', i, m)
    {
      if k < i {
        assert RootAt(t, i, m);
      }
    }
  }

  /** The roots of order 2^k for every k, by repeated squaring of the one of order 2^51. */
  method InitRoots(w: Limb, m: Limb, mInv: Limb) returns (t: seq<Prepared>)
    requires Modulus(m) && mInv == InitMulModFast(m) && w < m && m > 0 && Root(w, NTT_PROOT_2EXP, m)
    ensures |t| == NTT_PROOT_2EXP + 1 && RootsAbove(t, 0, m) && t[NTT_PROOT_2EXP].value == w
  {
    assert 1 < m < MOD_MAX;
    hide Cong, Root, Ready, Modulus, RootsAbove, Exp, InitMulModFast, InitMulModFast2;
    t := seq(NTT_PROOT_2EXP + 1, i => Prepared(0, 0));
    RootsStart(t, m);
    var c: Limb := w;
    for i := 0 to NTT_PROOT_2EXP
      invariant |t| == NTT_PROOT_2EXP + 1 && c < m && RootsAbove(t, NTT_PROOT_2EXP - i, m)
      invariant i < NTT_PROOT_2EXP ==> Root(c, NTT_PROOT_2EXP - i, m)
      invariant if i == 0 then c == w else t[NTT_PROOT_2EXP].value == w
      invariant 0 < i ==> Cong(Exp(t[NTT_PROOT_2EXP - i + 1].value, 2), c, m)
    {
      var k := NTT_PROOT_2EXP - i;
      var p := Prepare(c, m);
      RootStored(t, k, p, m);
      NextEntry(c, k, m);
      t := t[k := p];
      c := MulModFast(c, c, m, mInv);
    }
  }

  lemma {:induction false} NextEntry(c: Limb, k: nat, m: Limb)
    requires Modulus(m) && c < m && m > 0 && k >= 1 && Root(c, k, m)
    ensures c * c < B * MOD_MIN && 0 <= c * c % m < m && Cong(Exp(c, 2), c * c % m, m)
    ensures k >= 2 ==> Root(c * c % m, k - 1, m)
  {
    hide Root, Cong, Exp, Modulus;
    WordProduct(c, c, m);
    SquareIsExp(c, m);
    if k >= 2 {
      SquareIsRoot(c, k, m);
    }
  }

  lemma {:induction false} RootsStart(t: seq<Prepared>, m: Limb)
    requires m > 0 && |t| == NTT_PROOT_2EXP + 1
    ensures RootsAbove(t, NTT_PROOT_2EXP, m)
  {
  }

  /** Squares of inverses are inverses. */
  lemma {:induction false} InverseTables(t: seq<Prepared>, u: seq<Prepared>, k: nat, m: Limb)
    requires m > 0 && |t| == |u| == NTT_PROOT_2EXP + 1 && RootsAbove(t, 0, m) && RootsAbove(u, 0, m)
    requires 1 <= k <= NTT_PROOT_2EXP
    requires Cong(t[NTT_PROOT_2EXP].value * u[NTT_PROOT_2EXP].value, 1, m)
    ensures Cong(t[k].value * u[k].value, 1, m)
    decreases NTT_PROOT_2EXP - k
  {
    hide Cong, Root, Ready, Exp;
    if k < NTT_PROOT_2EXP {
      InverseTables(t, u, k + 1, m);
      assert RootAt(t, k, m) && RootAt(u, k, m);
      var a: int, b: int := t[k + 1].value, u[k + 1].value;
      ExpCong(a * b, 1, 2, m);
      OneExp(2);
      ExpProduct(a, b, 2);
      CongMul(Exp(a, 2), t[k].value, Exp(b, 2), u[k].value, m);
      CongSym(Exp(a, 2) * Exp(b, 2), t[k].value * u[k].value, m);
      CongTrans(t[k].value * u[k].value, Exp(a * b, 2), 1, m);
    }
  }

  /** All tables of one modulus. */
  method InitField(j: nat) returns (f: Field)
    requires j < NB_MODS
    ensures f.Valid() && f.m == NTT_MODS[j]
  {
    Constants(j);
    var m := NTT_MODS[j];
    assert 0 < m;
    hide Cong, Root, Ready, Modulus, RootsAbove, Exp, InitMulModFast;
    var mInv := InitMulModFast(m);
    var lenInv := InitLengths(m, mInv);
    var forward := InitRoots(NTT_PROOT[j], m, mInv);
    var inverse := InitRoots(NTT_PROOT_INV[j], m, mInv);
    f := Field(m, mInv, [forward, inverse], lenInv);
    FieldIsValid(f);
  }

  lemma {:induction false} FieldIsValid(f: Field)
    requires Modulus(f.m) && f.m > 0 && f.mInv == InitMulModFast(f.m) && |f.proot| == 2
    requires |f.proot[0]| == |f.proot[1]| == |f.lenInv| == NTT_PROOT_2EXP + 1
    requires RootsAbove(f.proot[0], 0, f.m) && RootsAbove(f.proot[1], 0, f.m)
    requires Cong(f.proot[0][NTT_PROOT_2EXP].value * f.proot[1][NTT_PROOT_2EXP].value, 1, f.m)
    requires forall k :: 0 <= k <= NTT_PROOT_2EXP ==>
               Ready(f.lenInv[k], f.m) && Cong(f.lenInv[k].value * Pow2(k), 1, f.m)
    ensures f.Valid()
  {
    hide Cong, Root, Ready, Modulus, Exp, InitMulModFast;
    forall d, k | 0 <= d < 2 && 1 <= k <= NTT_PROOT_2EXP
      ensures f.RootEntry(d, k)
    {
      assert RootAt(f.proot[d], k, f.m);
      if k > 1 {
        assert RootAt(f.proot[d], k - 1, f.m);
      }
    }
    forall k | 1 <= k <= NTT_PROOT_2EXP
      ensures f.InverseEntry(k)
    {
      InverseTables(f.proot[0], f.proot[1], k, f.m);
    }
    forall k | 0 <= k <= NTT_PROOT_2EXP
      ensures f.LengthEntry(k)
    {
    }
  }

  /** ntt_static_init. */
  method StaticInit() returns (s: NttState)
    ensures fresh(s) && s.Valid() && |s.fields| == NB_MODS
    ensures forall j :: 0 <= j < NB_MODS ==> s.fields[j].m == NTT_MODS[j]
  {
    var fields: seq<Field> := [];
    for j := 0 to NB_MODS
      invariant |fields| == j
      invariant forall i :: 0 <= i < j ==> fields[i].Valid() && fields[i].m == NTT_MODS[i]
    {
      var f := InitField(j);
      fields := fields + [f];
    }
    s := new NttState(fields);
  }
}
