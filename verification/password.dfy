/**
  The package password: ten int16 slots, each holding the character code
  multiplied by the key in the matching slot. A slot holding zero is unused.
 */
module Password {
  import opened Wrappers
  import opened Binary

  const Slots := 10

  function Abs(x: int): nat
  {
    if x < 0 then -x else x
  }

  /** Integer division as C# performs it: the quotient is truncated toward zero. */
  function TruncDiv(a: int, b: int): int
    requires b != 0
  {
    var q := Abs(a) / Abs(b);
    if (a < 0) == (b < 0) then q else -q
  }

  /**
    The defining property of truncating division: the remainder a - q*b is
    smaller than the divisor in magnitude and never has the opposite sign to
    the dividend. (Dafny's own `/` differs whenever a < 0.)
   */
  lemma TruncDivRemainder(a: int, b: int)
    requires b != 0
    ensures Abs(a - TruncDiv(a, b) * b) < Abs(b)
    ensures a - TruncDiv(a, b) * b == 0 || (a - TruncDiv(a, b) * b < 0 <==> a < 0)
  {
    var q := Abs(a) / Abs(b);
    var m := Abs(a) % Abs(b);
    assert Abs(a) == q * Abs(b) + m;
    if a >= 0 && b > 0 {
      assert a - TruncDiv(a, b) * b == m;
    } else if a < 0 && b < 0 {
      assert a - TruncDiv(a, b) * b == -m;
    } else if a >= 0 {
      assert TruncDiv(a, b) * b == (-q) * b == q * Abs(b);
      assert a - TruncDiv(a, b) * b == m;
    } else {
      assert TruncDiv(a, b) * b == (-q) * b == -(q * Abs(b));
      assert a - TruncDiv(a, b) * b == -m;
    }
  }

  /** A `(char)` cast of an int: its low 16 bits, as one UTF-16 code unit. */
  function CharOf(x: int): (c: CodeUnit)
    ensures (x - c) % 0x1_0000 == 0
  {
    x % 0x1_0000
  }

  /** The positions of the slots in use (nonzero), in ascending order. */
  function NonzeroSlots(password: seq<Int16>): (slots: seq<nat>)
    ensures forall j :: 0 <= j < |slots| ==> slots[j] < |password| && password[slots[j]] != 0
    ensures forall j, k :: 0 <= j < k < |slots| ==> slots[j] < slots[k]
    ensures forall i :: 0 <= i < |password| && password[i] != 0 ==> i in slots
    decreases |password|
  {
    if |password| == 0 then []
    else
      var n := |password| - 1;
      var front := NonzeroSlots(password[..n]);
      if password[n] == 0 then front else front + [n]
  }

  /** Every slot in use has a nonzero key, so no division by zero occurs. */
  predicate Decryptable(password: seq<Int16>, key: seq<Int16>)
    requires |password| == |key|
  {
    forall i :: 0 <= i < |password| && password[i] != 0 ==> key[i] != 0
  }

  /**
    The decrypted password: for every slot in use, in slot order, the
    character whose code is the truncated quotient of password and key.
   */
  function Decrypt(password: seq<Int16>, key: seq<Int16>): (r: Result<Text>)
    requires |password| == |key|
    ensures r.Success? <==> Decryptable(password, key)
    ensures r.Failure? ==> r.error == InvalidDivision
    ensures r.Success? ==> |r.value| == |NonzeroSlots(password)|
    ensures r.Success? ==> forall j :: 0 <= j < |r.value| ==>
      var i := NonzeroSlots(password)[j];
      key[i] != 0 && r.value[j] == CharOf(TruncDiv(password[i], key[i]))
    decreases |password|
  {
    if |password| == 0 then Success([])
    else
      var n := |password| - 1;
      assert Decryptable(password, key) <==>
        Decryptable(password[..n], key[..n]) && (password[n] != 0 ==> key[n] != 0);
      var front :- Decrypt(password[..n], key[..n]);
      if password[n] == 0 then Success(front)
      else if key[n] == 0 then Failure(InvalidDivision)
      else Success(front + [CharOf(TruncDiv(password[n], key[n]))])
  }
}
