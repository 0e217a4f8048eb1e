/** Writing fields one behind another into a caller's buffer, as the generated encoders do. */
module Buffers {
  import opened Wire

  /** now is was with the bytes of done from base on. */
  ghost predicate Holds(was: Bytes, now: Bytes, base: nat, done: Bytes) {
    base + |done| <= |was| && now == was[..base] + done + was[base + |done|..]
  }

  /** Nothing outside of the avail bytes from base on has changed. */
  ghost predicate Inside(was: Bytes, now: Bytes, base: nat, avail: nat) {
    base + avail <= |was| == |now| && now[..base] == was[..base] && now[base + avail..] == was[base + avail..]
  }

  /** What an encoder promises: -1 for an object that does not pass its check, -2 just if the encoding does not
      fit the buffer, else the encoding, and nothing else is written. An object whose payload does not fit its
      length field is refused. */
  ghost predicate Written(was: Bytes, now: Bytes, base: nat, avail: nat, result: int, check: bool, fits: bool, enc: Bytes) {
    && Inside(was, now, base, avail)
    && (!check ==> result == -1)
    && (check && fits ==> result == if avail < |enc| then -2 else |enc|)
    && (check && !fits ==> result == -1 || result == -2)
    && (result >= 0 ==> Holds(was, now, base, enc))
  }

  /** The same, byte by byte. */
  lemma WrittenBytes(was: Bytes, now: Bytes, base: nat, avail: nat, result: int, check: bool, fits: bool, enc: Bytes)
    requires Written(was, now, base, avail, result, check, fits, enc)
    ensures |now| == |was| && forall i :: 0 <= i < |was| && !(base <= i < base + avail) ==> now[i] == was[i]
    ensures check && fits && avail >= |enc| ==> result == |enc|
    ensures check && fits && avail < |enc| ==> result == -2
    ensures !check ==> result == -1
    ensures result >= 0 ==> forall i :: 0 <= i < |enc| ==> now[base + i] == enc[i]
    ensures result >= 0 ==> forall i :: base + |enc| <= i < |was| ==> now[i] == was[i]
  {
    forall i | 0 <= i < base ensures now[i] == was[i] { assert now[..base][i] == was[..base][i]; }
    forall i | base + avail <= i < |was| ensures now[i] == was[i] {
      assert now[base + avail..][i - base - avail] == was[base + avail..][i - base - avail];
    }
  }

  lemma HoldsInside(was: Bytes, now: Bytes, base: nat, done: Bytes, avail: nat)
    requires Holds(was, now, base, done) && |done| <= avail && base + avail <= |was|
    ensures Inside(was, now, base, avail)
  {
    assert now[base + avail..] == was[base + avail..];
  }

  lemma InsideTrans(was: Bytes, mid: Bytes, now: Bytes, base: nat, done: Bytes, avail: nat)
    requires Holds(was, mid, base, done) && |done| <= avail && base + avail <= |was|
    requires Inside(mid, now, base + |done|, avail - |done|)
    ensures Inside(was, now, base, avail)
  {
    HoldsInside(was, mid, base, done, avail);
    assert now[..base] == now[..base + |done|][..base] == mid[..base];
  }

  lemma HoldsMore(was: Bytes, mid: Bytes, now: Bytes, base: nat, done: Bytes, more: Bytes)
    requires Holds(was, mid, base, done) && Holds(mid, now, base + |done|, more)
    ensures Holds(was, now, base, done + more)
  {
    var k := base + |done|;
    assert mid[..k] == was[..base] + done;
    assert mid[k + |more|..] == was[k + |more|..];
  }

  lemma HoldsBack(was: Bytes, mid: Bytes, now: Bytes, base: nat, done: Bytes, at: nat, src: Bytes)
    requires Holds(was, mid, base, done) && at + |src| <= |done| && Holds(mid, now, base + at, src)
    ensures Holds(was, now, base, done[..at] + src + done[at + |src|..])
  {
    var k := base + at;
    assert mid[..k] == was[..base] + done[..at];
    assert mid[k + |src|..] == done[at + |src|..] + was[base + |done|..];
  }

  /** What an encoder of an element has returned, when it is called behind done to write a part of enc, is what
      the encoder of the whole may return; and if that was no failure, the part is there. */
  lemma WrittenNested(was: Bytes, mid: Bytes, now: Bytes, base: nat, avail: nat, result: int, done: Bytes, partFits: bool,
                      part: Bytes, fits: bool, enc: Bytes)
    requires Holds(was, mid, base, done) && |done| <= avail && base + avail <= |was|
    requires Written(mid, now, base + |done|, avail - |done|, result, true, partFits, part)
    requires |enc| >= |done| + |part| && (fits ==> partFits)
    ensures result < 0 ==> Written(was, now, base, avail, result, true, fits, enc)
    ensures result >= 0 ==> Holds(mid, now, base + |done|, part) && result == |part| <= avail - |done| && partFits
  {
    InsideTrans(was, mid, now, base, done, avail);
  }

  lemma CopyStep(was: Bytes, now: Bytes, ptr: nat, src: Bytes, i: nat)
    requires i < |src| && ptr + |src| <= |was| == |now| && Holds(was, now, ptr, src[..i])
    ensures Holds(was, now[ptr + i := src[i]], ptr, src[..i + 1])
  {
    assert src[..i + 1] == src[..i] + [src[i]];
    assert was[ptr + i..] == [was[ptr + i]] + was[ptr + i + 1..];
  }

  /** memcpy, or a byte of an integer after the other. */
  method Copy(output: array<byte>, ptr: nat, src: Bytes)
    requires ptr + |src| <= output.Length
    modifies output
    ensures Holds(old(output[..]), output[..], ptr, src)
  {
    var i := 0;
    while i < |src|
      invariant i <= |src| && Holds(old(output[..]), output[..], ptr, src[..i])
    {
      CopyStep(old(output[..]), output[..], ptr, src, i);
      output[ptr + i] := src[i];
      i := i + 1;
    }
    assert src[..i] == src;
  }

  /** The variables ptr, avail and written of an encoder. */
  class Writer {
    const output: array<byte>
    const base: nat
    var avail: nat
    var written: nat
    /** The buffer as it was, and what has been written. */
    ghost const was: Bytes
    ghost var done: Bytes

    ghost predicate Valid()
      reads this, output
    {
      && |was| == output.Length && base + avail <= output.Length && written == |done| <= avail
      && Holds(was, output[..], base, done)
    }

    constructor (output: array<byte>, base: nat, avail: nat)
      requires base + avail <= output.Length
      ensures Valid() && this.output == output && this.base == base && this.avail == avail && written == 0
      ensures was == output[..] && done == []
    {
      this.output, this.base, this.avail, written := output, base, avail, 0;
      was, done := output[..], [];
    }

    /** What an encoder may return at a point. */
    lemma Stop(result: int, check: bool, fits: bool, enc: Bytes)
      requires Valid()
      requires || (result == -1 && !(check && fits))
               || (result == -2 && check && !fits)
               || (result == -2 && check && |enc| > avail)
               || (result == written && check && fits && done == enc)
      ensures Written(was, output[..], base, avail, result, check, fits, enc)
    {
      HoldsInside(was, output[..], base, done, avail);
    }

    /** avail = n */
    method Shrink(n: nat)
      requires Valid() && written <= n <= avail
      modifies this`avail
      ensures Valid() && avail == n
    {
      avail := n;
    }

    /** Success, after avail has been made smaller than all, what the caller has given. */
    lemma StopShort(result: int, all: nat, enc: Bytes)
      requires Valid() && avail <= all && base + all <= output.Length && result == written && done == enc
      ensures Written(was, output[..], base, all, result, true, true, enc)
    {
      HoldsInside(was, output[..], base, done, all);
    }

    /** A field: if (avail - written < n) goto truncated; memcpy(ptr, ...); written += n; ptr += n. */
    method Field(src: Bytes) returns (ok: bool)
      requires Valid()
      modifies this`written, this`done, output
      ensures Valid() && (ok <==> |src| <= old(avail - written))
      ensures done == old(done) + if ok then src else []
    {
      if avail - written < |src| {
        return false;
      }
      Copy(output, base + written, src);
      HoldsMore(was, old(output[..]), output[..], base, done, src);
      written, done := written + |src|, done + src;
      ok := true;
    }

    /** Writing a length back to where it belongs. */
    method Back(at: nat, src: Bytes)
      requires Valid() && at + |src| <= written
      modifies this`done, output
      ensures Valid() && done == old(done[..at]) + src + old(done[at + |src|..])
    {
      Copy(output, base + at, src);
      HoldsBack(was, old(output[..]), output[..], base, done, at, src);
      done := done[..at] + src + done[at + |src|..];
    }

    /** After an encoder of an element, which passed its check, was called to write part behind. */
    method Take(result: int, ghost before: Bytes, ghost partFits: bool, ghost part: Bytes, ghost fits: bool, ghost enc: Bytes)
      requires |was| == output.Length && base + avail <= output.Length && written == |done| <= avail
      requires Holds(was, before, base, done)
      requires Written(before, output[..], base + written, avail - written, result, true, partFits, part)
      requires |enc| >= |done| + |part| && (fits ==> partFits)
      modifies this`written, this`done
      ensures result < 0 ==> Written(was, output[..], base, avail, result, true, fits, enc)
      ensures result >= 0 ==> Valid() && done == old(done) + part && partFits
    {
      WrittenNested(was, before, output[..], base, avail, result, done, partFits, part, fits, enc);
      if result >= 0 {
        HoldsMore(was, before, output[..], base, done, part);
        written, done := written + result, done + part;
      }
    }
  }
}
