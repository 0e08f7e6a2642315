/**
 `lx_rapidjson_minify`, which fills a caller's buffer, and `rapidjson_minify`, which
 retries it with a doubled buffer.
 */
module Bridge {
  import opened Bytes
  import opened Json
  import opened RecursiveDescent
  import opened Writer
  import opened Document
  import opened Reader
  import opened Minify
  import opened Accepted
  import Utf8

  /** The bridge function: succeeds exactly on an accepted text whose minified form and terminator fit. */
  method LxRapidjsonMinify(input: bytes, output: array<byte>) returns (ok: bool, outputLen: nat)
    modifies output
    ensures ok <==> Minified(input).Some? && |Minified(input).value| + 1 <= output.Length
    ensures ok ==>
              && outputLen == |Minified(input).value| && output[..outputLen] == Minified(input).value
              && output[outputLen] == NUL
    ensures ok ==> output[outputLen + 1..] == old(output[outputLen + 1..])
    ensures !ok ==> output[..] == old(output[..])
  {
    hide RecursiveDescent.Parse, Text;
    outputLen := 0;
    if output.Length == 0 {
      return false, 0;
    }
    RejectedIsError(input);
    var reader := new Reader(input, DEFAULT_FLAGS);
    reader.Parse();
    if reader.result.ParseError? {
      return false, 0;
    }
    AcceptedDenotes(input, DEFAULT_FLAGS);
    var doc := new Document();
    doc.Populate(reader.events);
    var writer := new Writer();
    Accept(doc.root, writer);
    var len := |writer.out|;
    if len + 1 > output.Length {
      return false, 0;
    }
    CopyOut(writer.out, output);
    output[len] := NUL;
    ok, outputLen := true, len;
  }

  /** `memcpy` into the front of the caller's buffer. */
  method CopyOut(source: bytes, output: array<byte>)
    requires |source| <= output.Length
    modifies output
    ensures output[..|source|] == source && output[|source|..] == old(output[|source|..])
  {
    var i := 0;
    while i < |source|
      invariant 0 <= i <= |source|
      invariant output[..i] == source[..i] && output[|source|..] == old(output[|source|..])
    {
      output[i] := source[i];
      i := i + 1;
    }
  }

  const USIZE_MAX := 0xFFFF_FFFF_FFFF_FFFF
  const ISIZE_MAX := 0x7FFF_FFFF_FFFF_FFFF

  function SaturatingDouble(cap: nat): nat {
    if 2 * cap > USIZE_MAX then USIZE_MAX else 2 * cap
  }

  /**
   The Rust wrapper: on every string it returns the minified form if there is one, after at most two rounds,
   the last with a buffer of at most twice the first size.
   */
  method RapidjsonMinify(input: bytes) returns (result: Option<bytes>, ghost rounds: nat, ghost capacity: nat)
    requires Utf8.Valid(input) && |input| <= ISIZE_MAX
    ensures result == if NUL in input then None else Minified(input)
    ensures result.Some? ==> rounds <= 2 && capacity <= 2 * (if |input| < 256 then 256 else |input|)
  {
    hide Minified;
    rounds, capacity := 0, 0;
    if NUL in input {
      return None, 0, 0;
    }
    if Minified(input).Some? {
      MinifyPreserves(input);
    }
    var cap: nat := if |input| < 256 then 256 else |input|;
    var round := 0;
    while round < 5
      invariant 0 <= round <= 5 && rounds == round
      invariant Minified(input).Some? ==> round <= 1 && (round == 1 ==> cap >= 2 * |input| && cap >= 256)
      invariant Minified(input).Some? ==> cap <= (round + 1) * (if |input| < 256 then 256 else |input|)
      invariant round == 0 ==> cap >= |input| && cap >= 256 && cap <= ISIZE_MAX
    {
      var out := new byte[cap](_ => 0);
      var ok, outLen := LxRapidjsonMinify(input, out);
      rounds, capacity := rounds + 1, cap;
      if ok {
        var text := out[..outLen];
        var valid, copied := Utf8.ValidateText(text);
        return if valid then Some(text) else None, rounds, capacity;
      }
      cap := SaturatingDouble(cap);
      if cap == 0 {
        break;
      }
      round := round + 1;
    }
    result := None;
  }
}
