/**
 * The body-truncation transpiler: drop every instruction up to and including
 * the first `throw`, keep the rest verbatim, and fail when there is no `throw`.
 */
module Transpiler {
  import opened Results

  /** An IL opcode, by its numeric value. */
  type OpCode = nat

  /** The value of the `throw` opcode in ECMA-335 (Partition III, section 4.31). */
  const ThrowOpCode: OpCode := 0x7A

  /**
   * One instruction of a method body: its opcode and everything else it
   * carries (operand, labels, exception blocks), which the transpiler never inspects.
   */
  datatype Instruction<Payload> = Instruction(opcode: OpCode, payload: Payload)

  /** The InvalidOperationException raised when the body has no `throw`. */
  datatype TranspileError = ThrowNotFound

  predicate IsThrow<P>(instruction: Instruction<P>) {
    instruction.opcode == ThrowOpCode
  }

  /** No instruction of `body` is a `throw`. */
  predicate NoThrow<P>(body: seq<Instruction<P>>) {
    forall i :: 0 <= i < |body| ==> !IsThrow(body[i])
  }

  /** The position of the first `throw` in `body`, if there is one. */
  function FirstThrow<P>(body: seq<Instruction<P>>): (k: Option<nat>)
    ensures k.Some? ==> k.value < |body| && IsThrow(body[k.value]) && NoThrow(body[..k.value])
    ensures k.None? <==> NoThrow(body)
  {
    if body == [] then None
    else if IsThrow(body[0]) then Some(0)
    else
      match FirstThrow(body[1..])
      case None => None
      case Some(k) =>
        assert body[..k + 1] == [body[0]] + body[1..][..k];
        Some(k + 1)
  }

  /** A `throw` with none before it is the first one. */
  lemma FirstThrowAt<P>(body: seq<Instruction<P>>, k: nat)
    requires k < |body| && IsThrow(body[k]) && NoThrow(body[..k])
    ensures FirstThrow(body) == Some(k)
  {
  }

  /** What the transpiled body is: the instructions after the first `throw`, or the failure. */
  function Truncated<P>(body: seq<Instruction<P>>): Result<seq<Instruction<P>>, TranspileError> {
    match FirstThrow(body)
    case None => Err(ThrowNotFound)
    case Some(k) => Ok(body[k + 1..])
  }

  /**
   * Transpiler_RemoveWorksheetGetterILChecks: one forward pass with the flag
   * `foundThrow`; instructions are kept only after the flag is set, so a body
   * without `throw` yields nothing before the failure.
   */
  method RemoveThroughFirstThrow<P>(instructions: seq<Instruction<P>>)
    returns (r: Result<seq<Instruction<P>>, TranspileError>)
    ensures r == Truncated(instructions)
    ensures r.Err? <==> NoThrow(instructions)
  {
    var foundThrow := false;
    var kept: seq<Instruction<P>> := [];
    ghost var marker: nat := 0;
    for i := 0 to |instructions|
      invariant !foundThrow ==> kept == [] && NoThrow(instructions[..i])
      invariant foundThrow ==> marker < i && FirstThrow(instructions) == Some(marker)
      invariant foundThrow ==> kept == instructions[marker + 1..i]
    {
      var instruction := instructions[i];
      if !foundThrow {
        if instruction.opcode == ThrowOpCode {
          FirstThrowAt(instructions, i);
          foundThrow := true;
          marker := i;
          continue;
        }
        assert instructions[..i + 1] == instructions[..i] + [instruction];
      } else {
        kept := kept + [instruction];
      }
    }
    if !foundThrow {
      assert instructions[..|instructions|] == instructions;
      return Err(ThrowNotFound);
    }
    assert instructions[marker + 1..|instructions|] == instructions[marker + 1..];
    return Ok(kept);
  }

  /**
   * The suffix characterisation: for any split of the body around one
   * instruction `x`, the result is the part after `x` exactly when `x` is a
   * `throw` and nothing before it is.
   */
  lemma {:induction false} TruncatedIsSuffixAfterFirstThrow<P>(before: seq<Instruction<P>>, x: Instruction<P>, after: seq<Instruction<P>>)
    ensures Truncated(before + [x] + after) == Ok(after) <==> IsThrow(x) && NoThrow(before)
  {
    var body := before + [x] + after;
    assert body[..|before|] == before && body[|before|] == x && body[|before| + 1..] == after;
    if IsThrow(x) && NoThrow(before) {
      FirstThrowAt(body, |before|);
    }
    if Truncated(body) == Ok(after) {
      var k := FirstThrow(body).value;
      assert |body[k + 1..]| == |after|;
      assert k == |before|;
    }
  }

  /** The transpiler fails exactly on bodies without any `throw`. */
  lemma TruncatedFailsIffNoThrow<P>(body: seq<Instruction<P>>)
    ensures Truncated(body) == Err(ThrowNotFound) <==> NoThrow(body)
    ensures Truncated(body).Ok? ==> |Truncated(body).value| < |body|
  {
  }

  /**
   * Only the first `throw` is the marker: a later `throw` at position j is kept,
   * verbatim, at position j - i - 1 of the result.
   */
  lemma LaterThrowsKept<P>(body: seq<Instruction<P>>, i: nat, j: nat)
    requires i < j < |body|
    requires IsThrow(body[i]) && NoThrow(body[..i]) && IsThrow(body[j])
    ensures Truncated(body).Ok?
    ensures |Truncated(body).value| == |body| - i - 1
    ensures Truncated(body).value[j - i - 1] == body[j]
  {
    FirstThrowAt(body, i);
  }

  /** Instructions without `throw` placed in front of a body do not change the result. */
  lemma {:induction false} TruncatedIgnoresThrowFreePrefix<P>(prefix: seq<Instruction<P>>, body: seq<Instruction<P>>)
    requires NoThrow(prefix)
    ensures Truncated(prefix + body) == Truncated(body)
  {
    if prefix == [] {
      assert prefix + body == body;
    } else {
      assert (prefix + body)[1..] == prefix[1..] + body;
      assert NoThrow(prefix[1..]) by {
        forall i | 0 <= i < |prefix[1..]| ensures !IsThrow(prefix[1..][i]) {
          assert prefix[1..][i] == prefix[i + 1];
        }
      }
      TruncatedIgnoresThrowFreePrefix(prefix[1..], body);
      var whole := prefix + body;
      assert !IsThrow(whole[0]);
      match FirstThrow(whole[1..])
      case None =>
        assert FirstThrow(whole) == None;
      case Some(k) =>
        assert FirstThrow(whole) == Some(k + 1);
        assert whole[1..][k + 1..] == whole[k + 2..];
    }
  }

  /** The body [A, B, THROW, C, D] becomes [C, D]. */
  lemma FiveInstructionExample<P>(a: Instruction<P>, b: Instruction<P>, t: Instruction<P>, c: Instruction<P>, d: Instruction<P>)
    requires !IsThrow(a) && !IsThrow(b) && IsThrow(t)
    ensures Truncated([a, b, t, c, d]) == Ok([c, d])
  {
    assert [a, b, t, c, d] == [a, b] + [t] + [c, d];
    TruncatedIsSuffixAfterFirstThrow([a, b], t, [c, d]);
  }
}
