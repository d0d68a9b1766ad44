/** qrcodegen's Reed-Solomon encoder, whose blocks quirc's decoder accepts unchanged and restores
    after errors. */
module RsEncoder {
  import opened Galois
  import opened Galois256
  import opened Galois256Tables
  import opened BerlekampMassey
  import opened ReedSolomon
  import opened RsDecoder
  import opened Wrappers

  /** What the code's operations are in the field of the tables. */
  lemma Operations(a: bv8, b: bv8)
    ensures IsField(Gf256()) && Gf256().p == 255 && Gf256().zero == 0 && One(Gf256()) == 1
    ensures Times(a, b) == Mul(Gf256(), a, b) && a ^ b == Gf256().xor(a, b)
  {
    Gf256IsField();
    MulIsTimes(a, b);
    ExpRow0();
  }

  /** The i-th root. */
  lemma Root(i: nat)
    ensures Gf256().exp(i) == Exp(i) && Exp(0) == 1 && Times(Exp(i), 2) == Exp(i + 1)
  {
    ExpRow0();
    TimesExp(i, 1);
  }

  /** One factor (x - root), in place. */
  method MultiplyFactor(result: array<bv8>, root: bv8)
    requires result.Length > 0
    modifies result
    ensures result[..] == NextProduct(Gf256(), old(result[..]), root)
  {
    hide Times, Gf256, Mul;
    Operations(0, 0);
    var n := result.Length;
    for j := 0 to n
      invariant forall k :: j <= k < n ==> result[k] == old(result[k])
      invariant forall k :: 0 <= k < j ==> result[k] == NextProduct(Gf256(), old(result[..]), root)[k]
    {
      var v := ReedSolomonMultiply(result[j], root);
      Operations(result[j], root);
      var next: bv8 := if j + 1 < n then result[j + 1] else 0;
      NextCoefficient(old(result[..]), root, j);
      Operations(v, next);
      result[j] := v;
      if j + 1 < n {
        result[j] := result[j] ^ result[j + 1];
      }
    }
  }

  lemma NextCoefficient(p: seq<bv8>, root: bv8, j: nat)
    requires j < |p|
    ensures var gf := Gf256();
      NextProduct(gf, p, root)[j] == gf.xor(Mul(gf, p[j], root), if j + 1 < |p| then p[j + 1] else 0)
      && (j + 1 == |p| ==> NextProduct(gf, p, root)[j] == Mul(gf, p[j], root))
  {
    hide Gf256, Mul, Times;
    Operations(0, 0);
    var gf := Gf256();
    var next: bv8 := if j + 1 < |p| then p[j + 1] else 0;
    assert Shifted(gf, p)[j] == next;
    XorComm(gf, next, Mul(gf, p[j], root));
    XorZero(gf, Mul(gf, p[j], root));
  }

  /** `reedSolomonComputeDivisor`: the generator polynomial without its leading coefficient. */
  method ComputeDivisor(degree: int) returns (r: Outcome<seq<bv8>>)
    ensures r == DomainError <==> degree < 1 || degree > 255
    ensures r.Ok? || r == DomainError
    ensures r.Ok? ==> |r.value| == degree && IsDivisor(Gf256(), r.value)
  {
    hide Times, Gf256, IsDivisor;
    if degree < 1 || degree > 255 {
      return DomainError;
    }
    Operations(0, 0);
    var gf := Gf256();
    var result := new bv8[degree](_ => 0);
    result[degree - 1] := 1;
    StartProduct(gf, result[..]);
    var root: bv8 := 1;
    Root(0);
    for i := 0 to degree
      invariant root == gf.exp(i) == Exp(i)
      invariant IsProduct(gf, result[..], i)
    {
      GrowProduct(gf, result[..], i);
      MultiplyFactor(result, root);
      root := ReedSolomonMultiply(root, 2);
      Root(i);
      Root(i + 1);
    }
    return Ok(result[..]);
  }

  /** The data and the remainder so far are a multiple of the generator polynomial. */
  ghost predicate AllDivided(data: seq<bv8>, r: seq<bv8>, quotient: seq<bv8>, divisor: seq<bv8>) {
    forall x: bv8 :: Divided(Gf256(), data, r, quotient, divisor, x)
  }

  /** The remainder's shift, and the subtraction of a multiple of the divisor. */
  method SubtractMultiple(shifted: seq<bv8>, divisor: seq<bv8>, factor: bv8) returns (result: seq<bv8>)
    requires |shifted| == |divisor|
    ensures result == Combined(Gf256(), shifted, divisor, factor)
  {
    hide Times, Gf256, Mul;
    Operations(0, 0);
    result := shifted;
    for i := 0 to |result|
      invariant |result| == |shifted|
      invariant forall k :: i <= k < |result| ==> result[k] == shifted[k]
      invariant forall k :: 0 <= k < i ==> result[k] == Combined(Gf256(), shifted, divisor, factor)[k]
    {
      var v := ReedSolomonMultiply(divisor[i], factor);
      Operations(divisor[i], factor);
      Operations(result[i], v);
      result := result[i := result[i] ^ v];
    }
  }

  /** `reedSolomonComputeRemainder`: polynomial division. The quotient is a ghost result. */
  method ComputeRemainder(data: seq<bv8>, divisor: seq<bv8>) returns (result: seq<bv8>, ghost quotient: seq<bv8>)
    requires divisor != []
    ensures |result| == |divisor| && AllDivided(data, result, quotient, divisor)
  {
    hide Times, Gf256, Mul, Divided;
    Operations(0, 0);
    ghost var gf := Gf256();
    result := seq(|divisor|, _ => 0);
    quotient := [];
    NothingDivided(result, divisor);
    for i := 0 to |data|
      invariant |result| == |divisor| && AllDivided(data[..i], result, quotient, divisor)
    {
      var b := data[i];
      var factor := b ^ result[0];
      Operations(b, result[0]);
      forall x: bv8
        ensures Divided(gf, data[..i] + [b], Divide(gf, result, divisor, factor), quotient + [factor], divisor, x)
      {
        assert Divided(gf, data[..i], result, quotient, divisor, x);
        DivideStep(gf, data[..i], b, result, quotient, divisor, x);
      }
      assert data[..i + 1] == data[..i] + [b];
      ghost var before := result;
      result := result[1..];
      result := result + [0];
      assert result == Shifted(gf, before);
      result := SubtractMultiple(result, divisor, factor);
      assert result == Divide(gf, before, divisor, factor);
      quotient := quotient + [factor];
    }
    assert data[..|data|] == data;
  }

  lemma NothingDivided(zeros: seq<bv8>, divisor: seq<bv8>)
    requires |zeros| == |divisor| && zeros == seq(|divisor|, _ => 0)
    ensures AllDivided([], zeros, [], divisor)
  {
    hide Times, Gf256, Mul;
    Operations(0, 0);
    var gf := Gf256();
    forall x: bv8
      ensures Divided(gf, [], zeros, [], divisor, x)
    {
      assert [] + zeros == zeros;
      EvalLeadingZeros(gf, |zeros|, x);
      assert zeros == seq(|zeros|, _ => gf.zero);
      MulZero(gf, EvalMonic(gf, divisor, x));
    }
  }

  /** A multiple of the generator polynomial is a codeword. */
  lemma MultipleIsCodeword(data: seq<bv8>, r: seq<bv8>, quotient: seq<bv8>, divisor: seq<bv8>)
    requires AllDivided(data, r, quotient, divisor) && IsDivisor(Gf256(), divisor)
    ensures IsField(Gf256()) && IsCodeword(Gf256(), data + r, |divisor|)
  {
    hide Times, Gf256, Mul;
    Operations(0, 0);
    var gf := Gf256();
    forall i: nat | i < |divisor|
      ensures Eval(gf, data + r, gf.exp(i)) == gf.zero
    {
      assert Divided(gf, data, r, quotient, divisor, gf.exp(i));
      assert EvalMonic(gf, divisor, gf.exp(i)) == Product(gf, gf.exp(i), |divisor|);
      ProductVanishes(gf, i, |divisor|);
      MulZero(gf, Eval(gf, quotient, gf.exp(i)));
    }
  }

  /** A block with its error correction bytes, for every parity length the decoder accepts. */
  method EncodeBlock(data: seq<bv8>, npar: nat) returns (block: seq<bv8>)
    requires 1 <= npar < MAX_POLY
    ensures |block| == |data| + npar && block[..|data|] == data
    ensures IsField(Gf256()) && IsCodeword(Gf256(), block, npar)
  {
    hide Times, Gf256, IsDivisor, IsCodeword, AllDivided;
    var divisor := ComputeDivisor(npar);
    var ecc, quotient := ComputeRemainder(data, divisor.value);
    MultipleIsCodeword(data, ecc, quotient, divisor.value);
    block := data + ecc;
  }

  /** The two implementations together: what one encodes the other gives back, unchanged when
      nothing happened and whatever happened to at most half as many bytes as there are parity
      bytes. */
  method Transmit(data: seq<bv8>, npar: nat, noise: array<bv8>) returns (success: bool, ghost block: seq<bv8>)
    requires 1 <= npar < MAX_POLY && noise.Length == |data| + npar <= 255
    modifies noise
    ensures |block| == noise.Length && block[..|data|] == data
    ensures IsField(Gf256()) && IsCodeword(Gf256(), block, npar)
    ensures 2 * Distance(Gf256(), block, old(noise[..])) <= npar ==> success && noise[..] == block
  {
    hide Times, Gf256, IsCodeword;
    Operations(0, 0);
    block := EncodeBlock(data, npar);
    success := CorrectBlock(Gf256(), noise, npar, block);
  }
}
