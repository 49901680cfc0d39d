/** Exclusive-or on 32-bit registers. */
module XorLaws {

  function Xor(a: bv32, b: bv32): bv32 {
    a ^ b
  }

  lemma Associates(a: bv32, b: bv32, p: bv32)
    ensures Xor(a, Xor(b, p)) == Xor(Xor(a, b), p)
  {
  }

  lemma Symmetric(a: bv32, b: bv32)
    ensures Xor(a, b) == Xor(b, a)
  {
  }

  lemma Itself(a: bv32)
    ensures Xor(a, a) == 0 && Xor(a, 0) == a
  {
  }

  lemma Commutes(a: bv32, b: bv32, p: bv32)
    ensures Xor(Xor(a, p), b) == Xor(Xor(a, b), p)
  {
    hide Xor;
    Associates(a, p, b);
    Associates(a, b, p);
    Symmetric(p, b);
  }

  lemma Cancels(a: bv32, b: bv32, p: bv32)
    ensures Xor(Xor(a, p), Xor(b, p)) == Xor(a, b)
  {
    hide Xor;
    Associates(Xor(a, p), b, p);
    Commutes(a, b, p);
    Associates(Xor(a, b), p, p);
    Itself(p);
    Itself(Xor(a, b));
  }

  /** `a >> 1`. */
  function Half(a: bv32): bv32 {
    a >> 1
  }

  predicate Odd(a: bv32) {
    a & 1 == 1
  }

  lemma XorHalves(a: bv32, b: bv32)
    ensures Half(Xor(a, b)) == Xor(Half(a), Half(b))
  {
  }

  lemma XorOdd(a: bv32, b: bv32)
    ensures Odd(Xor(a, b)) <==> Odd(a) != Odd(b)
  {
  }

  function Lower(a: bv32): bv32 {
    a & 0xFF
  }

  function Upper(a: bv32): bv32 {
    a & 0xFFFF_FF00
  }

  lemma Parts(a: bv32)
    ensures Xor(Upper(a), Lower(a)) == a
    ensures Upper(a) & 0xFF == 0 && Upper(a) >> 8 == a >> 8
  {
  }

  lemma Differ(a: bv32, b: bv32)
    ensures Xor(a, b) == 0 <==> a == b
  {
    hide Xor;
    Associates(a, b, b);
    Symmetric(0, b);
    Itself(a);
    Itself(b);
  }
}
