/** The moduli and roots built into the program are what the transform needs: inverse roots of order 2^51. */
module NttRoots {
  import opened Limbs
  import opened NttWords
  import opened NttMath
  import opened Ntt
  import opened NttFft

  const NTT_MODS: seq<limb> := [
    0x28d8000000000001, 0x2a88000000000001, 0x2ed8000000000001,
    0x3508000000000001, 0x3aa8000000000001]

  const NTT_PROOT: seq<limb> := [
    0x1b8ea61034a2bea7, 0x21a9762de58206fb, 0x02ca782f0756a8ea,
    0x278384537a3e50a1, 0x106e13fee74ce0ab]

  const NTT_PROOT_INVERSE: seq<limb> := [
    0x233513af133e13b8, 0x1d13140d1c6f75f1, 0x12cde57f97e3eeda,
    0x0d6149e23cbe654f, 0x36cd204f522a1379]

  /** What the tables of one modulus are built from. */
  ghost predicate IsBase(m: limb, proot: limb, inverse: limb) {
    && IsModulus(m) && m % 2 == 1 && proot < m && inverse < m
    && Root(m, proot, NTT_PROOT_2EXP) && Cong(m, Mul(proot, inverse), 1)
  }

  lemma Raise(m: int, c: int, k: nat, x: int, y: int)
    requires m > 0 && Cong(m, Pow(c, TwoTo(k)), x) && y == (x * x) % m
    ensures Cong(m, Pow(c, TwoTo(k + 1)), y)
  {
    hide Cong, Pow;
    PowAdd(c, TwoTo(k), TwoTo(k));
    CongMul(m, Pow(c, TwoTo(k)), x, Pow(c, TwoTo(k)), x);
    CongMod(m, x * x);
    CongSym(m, y, x * x);
    CongTrans(m, Pow(c, TwoTo(k + 1)), x * x, y);
  }

  /** Five squarings of a power of c. */
  lemma Raise5(m: int, c: int, k: nat, x: int, x1: int, x2: int, x3: int, x4: int, x5: int)
    requires m > 0 && Cong(m, Pow(c, TwoTo(k)), x)
    requires x1 == (x * x) % m && x2 == (x1 * x1) % m && x3 == (x2 * x2) % m && x4 == (x3 * x3) % m
             && x5 == (x4 * x4) % m
    ensures Cong(m, Pow(c, TwoTo(k + 5)), x5)
  {
    hide Cong, Pow, TwoTo;
    Raise(m, c, k, x, x1);
    Raise(m, c, k + 1, x1, x2);
    Raise(m, c, k + 2, x2, x3);
    Raise(m, c, k + 3, x3, x4);
    Raise(m, c, k + 4, x4, x5);
  }

  /** After fifty squarings the root has become -1. */
  lemma BaseIs(m: limb, c: limb, d: limb)
    requires IsModulus(m) && m % 2 == 1 && c < m && d < m
    requires Cong(m, Pow(c, TwoTo(50)), m - 1) && Mul(c, d) % m == 1
    ensures IsBase(m, c, d)
  {
    hide Cong, Pow, TwoTo;
    CongBy(m, m - 1, -1, 1);
    CongTrans(m, Pow(c, TwoTo(50)), m - 1, -1);
    CongMod(m, Mul(c, d));
    CongSym(m, 1, Mul(c, d));
  }

  lemma PowFirst(m: int, c: int)
    ensures Cong(m, Pow(c, TwoTo(0)), c)
  {
    assert Pow(c, 1) == Pow(c, 0) * c == c;
    CongRefl(m, c);
  }

  lemma Base0()
    ensures IsBase(NTT_MODS[0], NTT_PROOT[0], NTT_PROOT_INVERSE[0])
  {
    hide Cong, Pow, TwoTo, IsBase;
    var m, c := 0x28d8000000000001, 0x1b8ea61034a2bea7;
    PowFirst(m, c);
    Raise5(m, c, 0, c, 0x11bf2acc9c713d40, 0x117ecd40b8f23ce3,
      0x045ca06b7dd55768, 0x2063daa5f3ab2b8f, 0x1a8676cd7378a4a2);
    Raise5(m, c, 5, 0x1a8676cd7378a4a2, 0x0078addfbaf5d977, 0x1af47adc2454618d,
      0x0d47e59d2827ff15, 0x066b730a50ae367d, 0x27c9981f5b3ed347);
    Raise5(m, c, 10, 0x27c9981f5b3ed347, 0x0765065a915fa984, 0x0b1428bc341579c0,
      0x01ee40846a81bd08, 0x0ce74593826adfd0, 0x04604dfcc67800f8);
    Raise5(m, c, 15, 0x04604dfcc67800f8, 0x250ce92091a519ae, 0x09ad967836a0d03d,
      0x0f79df39b7a793dd, 0x1020b13077495562, 0x0808861f0e23310c);
    Raise5(m, c, 20, 0x0808861f0e23310c, 0x1881d30f64dde1b2, 0x0ba18994b0308683,
      0x02bc9718ea5abba3, 0x1ba0869095d3d799, 0x06d7161052ed33c7);
    Raise5(m, c, 25, 0x06d7161052ed33c7, 0x25ee3bd9c046a388, 0x00524cb3892ce2ac,
      0x21e3892da47bfed1, 0x1a6a218533869415, 0x1e40f499a11e5c2f);
    Raise5(m, c, 30, 0x1e40f499a11e5c2f, 0x1eea26409f9fadd8, 0x029490b7904c808c,
      0x0381b45240bee56d, 0x0be930411abbd7ef, 0x1b2cc404c1f00eab);
    Raise5(m, c, 35, 0x1b2cc404c1f00eab, 0x1b758c419b9072ed, 0x0931dd93b729b453,
      0x224524552b855f94, 0x1020098506d09868, 0x19865c9022733918);
    Raise5(m, c, 40, 0x19865c9022733918, 0x1480b64fff3cb853, 0x16070c056f2e8ff4,
      0x1620b4151aecbd96, 0x03420ab6137bbd61, 0x2719ec745b89fb2d);
    Raise5(m, c, 45, 0x2719ec745b89fb2d, 0x276d1af9b2668e7b, 0x225c203ea7b1acc0,
      0x240936938e1ab821, 0x22ddbb3c2ad555da, 0x28d8000000000000);
    BaseIs(m, c, 0x233513af133e13b8);
  }

  lemma Base1()
    ensures IsBase(NTT_MODS[1], NTT_PROOT[1], NTT_PROOT_INVERSE[1])
  {
    hide Cong, Pow, TwoTo, IsBase;
    var m, c := 0x2a88000000000001, 0x21a9762de58206fb;
    PowFirst(m, c);
    Raise5(m, c, 0, c, 0x0c115151fccaa3b6, 0x1933cae903d6df84,
      0x18ced8f84565af47, 0x10d701bec133727f, 0x0f78a7db7410d9f9);
    Raise5(m, c, 5, 0x0f78a7db7410d9f9, 0x16e656d8509df599, 0x188bef80e2704c11,
      0x1c318b73df288f7a, 0x0262a41498b083a7, 0x095660e210288c6a);
    Raise5(m, c, 10, 0x095660e210288c6a, 0x0d97b8fe678e8d34, 0x0a46e05bdca82f31,
      0x13f1190692921afa, 0x110b6c5ed7a45289, 0x29d6f683253995cf);
    Raise5(m, c, 15, 0x29d6f683253995cf, 0x0fd60a2a200f9c26, 0x2738a11d5cd1c02c,
      0x13391b2515ab46f8, 0x13e82823a00faf4b, 0x2453b59951f862eb);
    Raise5(m, c, 20, 0x2453b59951f862eb, 0x20208e091c61e871, 0x19109e9184890ca7,
      0x16a696d4620b5233, 0x112c70cff4f937c8, 0x23cbffd3ac83c407);
    Raise5(m, c, 25, 0x23cbffd3ac83c407, 0x28ed6ee4f7941100, 0x1f7efd54d99ae8f3,
      0x0f9234a42f60ed3d, 0x16361632299e1269, 0x08dfc85ec8f66421);
    Raise5(m, c, 30, 0x08dfc85ec8f66421, 0x162affd6d19e3f6d, 0x1ba70f27ded992c5,
      0x00c74896769ae521, 0x078c95dc9fe7d84e, 0x26f15b9d4656e9fe);
    Raise5(m, c, 35, 0x26f15b9d4656e9fe, 0x211501d49e89e6db, 0x13d5227e55bcd481,
      0x02b4e46443b48209, 0x09b98236f89da2c7, 0x25b15c692eacff82);
    Raise5(m, c, 40, 0x25b15c692eacff82, 0x12fe079fb471ccf6, 0x1c7f25769cdefca6,
      0x19458bb7142589e2, 0x01044bb49e3593fb, 0x0a951fcee81e1917);
    Raise5(m, c, 45, 0x0a951fcee81e1917, 0x10ae703a3f62fd23, 0x0bac4480425c3eec,
      0x146bd875e06a2fc4, 0x236e45c7a9102530, 0x2a88000000000000);
    BaseIs(m, c, 0x1d13140d1c6f75f1);
  }

  lemma Base2()
    ensures IsBase(NTT_MODS[2], NTT_PROOT[2], NTT_PROOT_INVERSE[2])
  {
    hide Cong, Pow, TwoTo, IsBase;
    var m, c := 0x2ed8000000000001, 0x02ca782f0756a8ea;
    PowFirst(m, c);
    Raise5(m, c, 0, c, 0x07f8af468fa96c01, 0x2893e1a955313b47,
      0x119875c71c305e20, 0x0fea39f4f588e372, 0x03616ec68cc63a53);
    Raise5(m, c, 5, 0x03616ec68cc63a53, 0x1dd280e8ca562289, 0x089b4335356f5ba9,
      0x0046e97af40d727e, 0x0c73b3b44a90e273, 0x061dfe8ca6992956);
    Raise5(m, c, 10, 0x061dfe8ca6992956, 0x1d3e5bdaac52234d, 0x1575c284b0956e53,
      0x15be952d05199cd2, 0x1847a2dddac12664, 0x0962b718917de5a0);
    Raise5(m, c, 15, 0x0962b718917de5a0, 0x1d0441ae2fbb4b0e, 0x10bc206b633195d3,
      0x00d4e22f9033841f, 0x2ba776ed50d8b268, 0x2783d493568cb20b);
    Raise5(m, c, 20, 0x2783d493568cb20b, 0x292654bbfb073949, 0x0b0aea6ed03a0b36,
      0x1f4c53ba8b9be4fe, 0x1186c4d8d6712ea1, 0x2883edd0b24d7431);
    Raise5(m, c, 25, 0x2883edd0b24d7431, 0x133a9d8b542f301b, 0x1345aa59bc4d4ab9,
      0x15517f78be3ba004, 0x167add39f82a332c, 0x126cd52ee5f02406);
    Raise5(m, c, 30, 0x126cd52ee5f02406, 0x002f285446e0e92d, 0x2644ab2c4cd4e358,
      0x0c2993c49ed39235, 0x09fc2f6fc81e4e61, 0x185e1567702365d4);
    Raise5(m, c, 35, 0x185e1567702365d4, 0x15c2be1efb484f5a, 0x03173e6d0fed32fb,
      0x2c1a707e395ae3bc, 0x2c985ac26b3d5b61, 0x2956b4b2229d8a8b);
    Raise5(m, c, 40, 0x2956b4b2229d8a8b, 0x2e5f530afca3420d, 0x03d58c348242857b,
      0x11120bcfa53759b0, 0x0f680f483975f033, 0x22f1a7a7bbadcd3b);
    Raise5(m, c, 45, 0x22f1a7a7bbadcd3b, 0x1970ef6c9cbcd317, 0x14bc81fbda4489b1,
      0x1fbd441fe5e70563, 0x15ebb0edef885436, 0x2ed8000000000000);
    BaseIs(m, c, 0x12cde57f97e3eeda);
  }

  lemma Base3()
    ensures IsBase(NTT_MODS[3], NTT_PROOT[3], NTT_PROOT_INVERSE[3])
  {
    hide Cong, Pow, TwoTo, IsBase;
    var m, c := 0x3508000000000001, 0x278384537a3e50a1;
    PowFirst(m, c);
    Raise5(m, c, 0, c, 0x0d82aa94862db309, 0x17c5b1d8edc947b5,
      0x1f0991d2b810c767, 0x158dad655569cce8, 0x343a21dd03b176d0);
    Raise5(m, c, 5, 0x343a21dd03b176d0, 0x0bd704064191e73e, 0x30d37af324a91bf3,
      0x10c457f05ef48610, 0x336d9c346ad224cd, 0x00c5ddfd400bd872);
    Raise5(m, c, 10, 0x00c5ddfd400bd872, 0x1215afd41184f7b4, 0x1dca774d45bb85bb,
      0x2590abd47f6f2b7b, 0x3431c6d1a0e183d2, 0x2ba9d15184e56f91);
    Raise5(m, c, 15, 0x2ba9d15184e56f91, 0x0a077f0e808f55e7, 0x10e4aca6fe02a647,
      0x27a6aad24167a986, 0x2ad8532952214a5d, 0x197defb964696287);
    Raise5(m, c, 20, 0x197defb964696287, 0x0b87fab71e36ea1a, 0x1690822d1f88258f,
      0x1e52d2eacbc69b26, 0x0eb3bb6912cb9ea0, 0x077bb40c803c1315);
    Raise5(m, c, 25, 0x077bb40c803c1315, 0x2013203188e97741, 0x18d07bde7b143666,
      0x334456414536a778, 0x08dc7997ac088ab6, 0x1ac41ca88e35b838);
    Raise5(m, c, 30, 0x1ac41ca88e35b838, 0x11c342f956abb257, 0x07fc7ef283fe83b4,
      0x24e0c3613c97a76a, 0x0f2aad0a6ea1df84, 0x113ef3259d22e0e7);
    Raise5(m, c, 35, 0x113ef3259d22e0e7, 0x080798a2565138f9, 0x33d53835ce5bc3ad,
      0x0f532653e3b244ce, 0x0c39b4ae0e71ff75, 0x2484f63c7f3a0060);
    Raise5(m, c, 40, 0x2484f63c7f3a0060, 0x2d85376e2b036871, 0x2ac7b1f3aa076f6e,
      0x0c62d8c29ed3e71c, 0x22b72fb700b997ff, 0x0477b150e0cdd0d0);
    Raise5(m, c, 45, 0x0477b150e0cdd0d0, 0x082a9b91aafa024c, 0x1255b0fb439fed7f,
      0x12b6abe6c05ea197, 0x1639a4efab5872e6, 0x3508000000000000);
    BaseIs(m, c, 0x0d6149e23cbe654f);
  }

  lemma Base4()
    ensures IsBase(NTT_MODS[4], NTT_PROOT[4], NTT_PROOT_INVERSE[4])
  {
    hide Cong, Pow, TwoTo, IsBase;
    var m, c := 0x3aa8000000000001, 0x106e13fee74ce0ab;
    PowFirst(m, c);
    Raise5(m, c, 0, c, 0x2ab4e3986f2ee22c, 0x099040fca134ac6b,
      0x117d12ab5ecb3741, 0x07d5f7dc1c1f064c, 0x34744e3bc14f85e3);
    Raise5(m, c, 5, 0x34744e3bc14f85e3, 0x0fd68f624aa11dbb, 0x18686bf84cb33e74,
      0x3530cf4f724d4754, 0x0500c9b305228d71, 0x13ea5d9520df4233);
    Raise5(m, c, 10, 0x13ea5d9520df4233, 0x0df5a5ca37b8046e, 0x0396e257658ca538,
      0x06e738d90aaf4949, 0x154a5bd6583090cf, 0x16605fa7ea67abaa);
    Raise5(m, c, 15, 0x16605fa7ea67abaa, 0x29528a36b3b3ad3e, 0x00b445908ec80a80,
      0x38cd2dec35b1a093, 0x37a3654336860829, 0x16d4e6036332f01f);
    Raise5(m, c, 20, 0x16d4e6036332f01f, 0x21deac0f1b7c42e3, 0x37d19eb869380dee,
      0x35f275215541e0fa, 0x37a7a16e0d67f70b, 0x0a6b48a027ed9cb0);
    Raise5(m, c, 25, 0x0a6b48a027ed9cb0, 0x1af75487599c3922, 0x17aee30790b9e2b3,
      0x1de18789eb23e9e0, 0x0f54a92367f882db, 0x1e99135084ab55df);
    Raise5(m, c, 30, 0x1e99135084ab55df, 0x2c8dcbb44789fc3d, 0x1bbbb5ff84595c2b,
      0x210be1ecd56e9b43, 0x31cf0e77383bda15, 0x230389d03a9741a9);
    Raise5(m, c, 35, 0x230389d03a9741a9, 0x2c01d728b756e204, 0x1b1a6ae0e8214e50,
      0x3a19a8749981d638, 0x38236c52f5edb34c, 0x2d6d4ea45938d2da);
    Raise5(m, c, 40, 0x2d6d4ea45938d2da, 0x2af11c7b4888771b, 0x2e7b6c570b501118,
      0x339a275f79ea4bbd, 0x376da315b593dc22, 0x0b831418ae2216ee);
    Raise5(m, c, 45, 0x0b831418ae2216ee, 0x1acd71a3bfdfd8de, 0x0226a78b52d57311,
      0x341060b345a6187d, 0x0190871e7f52cc53, 0x3aa8000000000000);
    BaseIs(m, c, 0x36cd204f522a1379);
  }

  /** Each of the five built-in moduli has a valid table. */
  method NttStaticInit(j: nat) returns (s: BFNTTState)
    requires j < |NTT_MODS|
    ensures s.Valid() && s.m == NTT_MODS[j]
    ensures fresh(s)
  {
    hide Cong, Root;
    Base0(); Base1(); Base2(); Base3(); Base4();
    s := new BFNTTState(NTT_MODS[j], NTT_PROOT[j], NTT_PROOT_INVERSE[j]);
  }
}
