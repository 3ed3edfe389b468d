/** Streaming search for several tokens in a chunked file, with an overlap carried between chunks. */
module TokenSearch {
  import opened Wrappers
  import opened Bytes

  datatype SearchError = NoTokens

  predicate OccursAt(t: seq<Byte>, s: seq<Byte>, i: int) {
    0 <= i <= |s| - |t| && s[i..i + |t|] == t
  }

  /** t occurs contiguously in s. */
  ghost predicate Occurs(t: seq<Byte>, s: seq<Byte>) {
    exists i :: OccursAt(t, s, i)
  }

  function Concat(chunks: seq<seq<Byte>>): seq<Byte> {
    if chunks == [] then [] else Concat(chunks[..|chunks| - 1]) + chunks[|chunks| - 1]
  }

  /** Python's `token in block` for bytes. */
  method Contains(token: seq<Byte>, block: seq<Byte>) returns (found: bool)
    ensures found <==> Occurs(token, block)
  {
    var i := 0;
    while i + |token| <= |block|
      invariant 0 <= i
      invariant forall j :: 0 <= j < i ==> !OccursAt(token, block, j)
      decreases |block| - i
    {
      if block[i..i + |token|] == token {
        assert OccursAt(token, block, i);
        return true;
      }
      i := i + 1;
    }
    found := false;
  }

  /** The names whose token occurs in the block. */
  method NamesIn(tokens: map<string, seq<Byte>>, block: seq<Byte>) returns (names: set<string>)
    ensures forall n :: n in names <==> n in tokens && Occurs(tokens[n], block)
  {
    names := {};
    var rest := tokens.Keys;
    while rest != {}
      invariant rest <= tokens.Keys
      invariant forall n :: n in names <==> n in tokens.Keys - rest && Occurs(tokens[n], block)
      decreases rest
    {
      var n :| n in rest;
      var found := Contains(tokens[n], block);
      if found {
        names := names + {n};
      }
      rest := rest - {n};
    }
  }

  method LongestToken(tokens: map<string, seq<Byte>>) returns (longest: int)
    requires tokens != map[]
    ensures forall n :: n in tokens ==> |tokens[n]| <= longest
    ensures exists n :: n in tokens && |tokens[n]| == longest
  {
    var first :| first in tokens.Keys;
    longest := |tokens[first]|;
    var rest := tokens.Keys;
    while rest != {}
      invariant rest <= tokens.Keys && exists n :: n in tokens && |tokens[n]| == longest
      invariant forall n :: n in tokens.Keys - rest ==> |tokens[n]| <= longest
      decreases rest
    {
      var n :| n in rest;
      if |tokens[n]| > longest {
        longest := |tokens[n]|;
      }
      rest := rest - {n};
    }
  }

  /** block[-overlap:]: the last bytes, or everything for a zero overlap, or all but the first for -1. */
  function Tail(block: seq<Byte>, overlap: int): seq<Byte>
    requires overlap >= -1
  {
    if overlap > 0 then block[if |block| > overlap then |block| - overlap else 0..]
    else if overlap == 0 || block == [] then block
    else block[1..]
  }

  ghost predicate Suffix(a: seq<Byte>, s: seq<Byte>) {
    |a| <= |s| && s[|s| - |a|..] == a
  }

  /** The carry is enough: a suffix of what was read, at least as long as any token needs. */
  ghost predicate Carries(carry: seq<Byte>, consumed: seq<Byte>, overlap: int) {
    Suffix(carry, consumed) && (|carry| >= overlap || carry == consumed)
  }

  lemma CarryStep(carry: seq<Byte>, consumed: seq<Byte>, chunk: seq<Byte>, overlap: int)
    requires overlap >= -1 && Carries(carry, consumed, overlap)
    ensures Carries(Tail(carry + chunk, overlap), consumed + chunk, overlap)
  {
    var block, all := carry + chunk, consumed + chunk;
    assert all[|all| - |block|..] == block;
    var t := Tail(block, overlap);
    assert block[|block| - |t|..] == t;
    assert all[|all| - |t|..] == block[|block| - |t|..];
  }

  /** What occurs in a part occurs in the whole. */
  lemma Widen(token: seq<Byte>, part: seq<Byte>, all: seq<Byte>, shift: nat)
    requires shift + |part| <= |all| && all[shift..shift + |part|] == part && Occurs(token, part)
    ensures Occurs(token, all)
  {
    var i :| OccursAt(token, part, i);
    SliceOfSlice(all, shift, |part|, i, i + |token|);
    assert OccursAt(token, all, i + shift);
  }

  /** An occurrence across the boundary lies within the carry and the chunk. */
  lemma Narrow(token: seq<Byte>, carry: seq<Byte>, consumed: seq<Byte>, chunk: seq<Byte>, i: nat)
    requires Suffix(carry, consumed) && OccursAt(token, consumed + chunk, i)
    requires i + |token| <= |consumed| || i >= |consumed| - |carry|
    ensures Occurs(token, consumed) || Occurs(token, carry + chunk)
  {
    var block, all := carry + chunk, consumed + chunk;
    var shift := |consumed| - |carry|;
    if i + |token| <= |consumed| {
      assert all[0..0 + |consumed|] == consumed;
      SliceOfSlice(all, 0, |consumed|, i, i + |token|);
      assert OccursAt(token, consumed, i);
    } else {
      Aligned(carry, consumed, chunk);
      SliceOfSlice(all, shift, |block|, i - shift, i - shift + |token|);
      assert OccursAt(token, block, i - shift);
    }
  }

  lemma Aligned(carry: seq<Byte>, consumed: seq<Byte>, chunk: seq<Byte>)
    requires Suffix(carry, consumed)
    ensures var shift := |consumed| - |carry|;
            (consumed + chunk)[shift..shift + |carry + chunk|] == carry + chunk
  {
    assert consumed == consumed[..|consumed| - |carry|] + carry;
  }

  lemma NarrowAll(token: seq<Byte>, carry: seq<Byte>, consumed: seq<Byte>, chunk: seq<Byte>, overlap: int)
    requires Carries(carry, consumed, overlap) && |token| - 1 <= overlap && Occurs(token, consumed + chunk)
    ensures Occurs(token, consumed) || Occurs(token, carry + chunk)
  {
    var i :| OccursAt(token, consumed + chunk, i);
    Narrow(token, carry, consumed, chunk, i);
  }

  /** A token is in the longer text when it was in the shorter one or is in carry plus chunk. */
  lemma OccursStep(token: seq<Byte>, carry: seq<Byte>, consumed: seq<Byte>, chunk: seq<Byte>, overlap: int)
    requires Carries(carry, consumed, overlap) && |token| - 1 <= overlap
    ensures Occurs(token, consumed + chunk) <==> Occurs(token, consumed) || Occurs(token, carry + chunk)
  {
    var block, all := carry + chunk, consumed + chunk;
    var shift := |consumed| - |carry|;
    assert all[0..0 + |consumed|] == consumed;
    Aligned(carry, consumed, chunk);
    hide Occurs;
    if Occurs(token, consumed) { Widen(token, consumed, all, 0); }
    if Occurs(token, block) { Widen(token, block, all, shift); }
    if Occurs(token, all) {
      NarrowAll(token, carry, consumed, chunk, overlap);
    }
  }

  /**
   However the file is cut into nonempty chunks, the names found are exactly those whose token
   occurs in the whole file; an empty file has none.
   */
  method ObservedNames(chunks: seq<seq<Byte>>, tokens: map<string, seq<Byte>>)
    returns (r: Result<set<string>, SearchError>)
    requires forall i :: 0 <= i < |chunks| ==> chunks[i] != []
    ensures r.Err? <==> tokens == map[]
    ensures r.Ok? ==> forall n :: n in r.value <==> n in tokens && chunks != [] && Occurs(tokens[n], Concat(chunks))
  {
    if tokens == map[] {
      return Err(NoTokens);
    }
    var longest := LongestToken(tokens);
    var overlap := longest - 1;
    var found: set<string> := {};
    var carry: seq<Byte> := [];
    for i := 0 to |chunks|
      invariant Carries(carry, Concat(chunks[..i]), overlap)
      invariant forall n :: n in found <==> n in tokens && i > 0 && Occurs(tokens[n], Concat(chunks[..i]))
    {
      ghost var consumed := Concat(chunks[..i]);
      assert chunks[..i + 1][..i] == chunks[..i];
      assert Concat(chunks[..i + 1]) == consumed + chunks[i];
      var block := carry + chunks[i];
      var names := NamesIn(tokens, block);
      forall n | n in tokens
        ensures Occurs(tokens[n], consumed + chunks[i]) <==> Occurs(tokens[n], consumed) || Occurs(tokens[n], block)
      {
        OccursStep(tokens[n], carry, consumed, chunks[i], overlap);
      }
      FirstChunk(tokens, i, consumed, block);
      found := found + names;
      CarryStep(carry, consumed, chunks[i], overlap);
      carry := Tail(block, overlap);
    }
    assert chunks[..|chunks|] == chunks;
    r := Ok(found);
  }

  /** Before the first chunk only an empty token occurs, and it occurs in the first block too. */
  lemma FirstChunk(tokens: map<string, seq<Byte>>, i: nat, consumed: seq<Byte>, block: seq<Byte>)
    requires i == 0 ==> consumed == []
    ensures i == 0 ==> forall n :: n in tokens && Occurs(tokens[n], consumed) ==> Occurs(tokens[n], block)
  {
    if i == 0 {
      forall n | n in tokens && Occurs(tokens[n], consumed) ensures Occurs(tokens[n], block) {
        assert tokens[n] == [] && OccursAt([], block, 0);
      }
    }
  }
}
