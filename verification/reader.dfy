/**
 * `StringReader` and `BufferedReader` of GaLib/include/galib/io/reader.h.
 *
 * A reader is a value; `read(outData, n)` becomes a function returning the
 * next reader and the chars it wrote to `outData`, whose length is the
 * return value. Copies go through `strncpy`, so a NUL in the data turns the
 * rest of that copy into NULs.
 *
 * The reader under a `BufferedReader` is any `IReader`; here it is a
 * `Source`, a queue of chunks handed out one per call.
 */
module Readers {
  import opened Maybe
  import opened Bits

  /** `BufferedReader::BufferSize`. */
  const BufferSize: nat := 4 * 1024

  /** No NUL among the chars: `strncpy` copies such text unchanged. */
  predicate NoNul(s: seq<char>)
  {
    forall k :: 0 <= k < |s| ==> s[k] != '\0'
  }

  /** `k` NUL chars. */
  function Nuls(k: nat): (r: seq<char>)
    ensures |r| == k
  {
    seq(k, _ => '\0')
  }

  /** The position of the first NUL among the first `s` chars of `src`, or `s` if there is none. */
  function NulAt(src: seq<char>, s: nat, i: nat): (z: nat)
    requires i <= s <= |src| && NoNul(src[..i])
    ensures i <= z <= s && NoNul(src[..z])
    ensures z < s ==> src[z] == '\0'
    decreases s - i
  {
    if i == s || src[i] == '\0' then i
    else
      assert src[..i + 1] == src[..i] + [src[i]];
      NulAt(src, s, i + 1)
  }

  /** `strncpy(dst, src, s)`: the first `s` chars of `src`, NUL from its first NUL on. */
  function StrNCopy(src: seq<char>, s: nat): (r: seq<char>)
    requires s <= |src|
    ensures |r| == s
    ensures NoNul(src[..s]) ==> r == src[..s]
  {
    var z := NulAt(src, s, 0);
    src[..z] + Nuls(s - z)
  }

  // ---- StringReader ----

  datatype StringReader = StringReader(buffer: seq<char>, idx: nat)

  /** The state every reader reaches from `StringReader(data)`: the index stays within the text. */
  predicate InText(r: StringReader)
  {
    r.idx <= |r.buffer|
  }

  /**
   * `StringReader::read(outData, n)`: hands out up to `n` chars from the
   * index on and moves the index past them; at the end it returns 0.
   */
  function StringRead(r: StringReader, n: nat): (res: (StringReader, seq<char>))
    ensures |res.1| <= n
    ensures res.0.buffer == r.buffer && res.0.idx == r.idx + |res.1|
    ensures InText(r) ==> InText(res.0)
    ensures |res.1| < n ==> res.0.idx >= |r.buffer|
    ensures InText(r) && NoNul(r.buffer) ==> res.1 == r.buffer[r.idx..res.0.idx]
  {
    var len := |r.buffer|;
    if r.idx < len then
      var s := if len - r.idx > n then n else len - r.idx;
      assert r.buffer[r.idx..][..s] == r.buffer[r.idx..r.idx + s];
      (StringReader(r.buffer, r.idx + s), StrNCopy(r.buffer[r.idx..], s))
    else
      (r, [])
  }

  /** Two reads in a row hand out one stretch of the text, without gap or overlap. */
  lemma ConsecutiveReads(r: StringReader, n1: nat, n2: nat)
    requires InText(r) && NoNul(r.buffer)
    ensures var (r1, d1) := StringRead(r, n1);
            var (r2, d2) := StringRead(r1, n2);
            d1 + d2 == r.buffer[r.idx..r2.idx]
  {
    var (r1, d1) := StringRead(r, n1);
    var (r2, d2) := StringRead(r1, n2);
    assert r.buffer[r.idx..r2.idx] == r.buffer[r.idx..r1.idx] + r.buffer[r1.idx..r2.idx];
  }

  /** A suffix is the stretch up to `j` followed by the suffix from `j`. */
  lemma SuffixSplit<T>(t: seq<T>, i: nat, j: nat)
    requires i <= j <= |t|
    ensures t[i..] == t[i..j] + t[j..]
  {
  }

  /** Reads of `n` chars repeated until one returns 0, the chars concatenated. */
  function Drain(r: StringReader, n: nat): seq<char>
    requires n > 0
    decreases |r.buffer| - r.idx
  {
    var (r1, d) := StringRead(r, n);
    if |d| == 0 then [] else d + Drain(r1, n)
  }

  /** Reading to the end in any positive read size yields the rest of the text, whole. */
  lemma {:induction false} DrainReadsAll(r: StringReader, n: nat)
    requires n > 0 && InText(r) && NoNul(r.buffer)
    ensures Drain(r, n) == r.buffer[r.idx..]
    decreases |r.buffer| - r.idx
  {
    var (r1, d) := StringRead(r, n);
    var t := r.buffer;
    if |d| > 0 {
      DrainReadsAll(r1, n);
      assert d == t[r.idx..r1.idx];
      SuffixSplit(t, r.idx, r1.idx);
    } else {
      assert r.idx == |t|;
    }
  }

  // ---- the reader under a BufferedReader ----

  /**
   * An `IReader` as a queue of chunks: `read(out, n)` hands out the next
   * chunk cut at `n` chars, the rest staying queued. An empty chunk, or an
   * empty queue, is a return of 0.
   */
  datatype Source = Source(chunks: seq<seq<char>>)

  /** All the chars the source will ever hand out, in order. */
  function Flatten(cs: seq<seq<char>>): seq<char>
  {
    if cs == [] then [] else cs[0] + Flatten(cs[1..])
  }

  /** The source never signals an end before its last chunk. */
  predicate NoEmptyChunk(src: Source)
  {
    forall i :: 0 <= i < |src.chunks| ==> |src.chunks[i]| > 0
  }

  function SourceRead(src: Source, n: nat): (res: (Source, seq<char>))
    ensures |res.1| <= n
    ensures Flatten(src.chunks) == res.1 + Flatten(res.0.chunks)
    ensures NoEmptyChunk(src) ==> NoEmptyChunk(res.0)
    ensures NoEmptyChunk(src) && n > 0 ==> (|res.1| == 0 <==> src.chunks == [])
  {
    if src.chunks == [] then (src, [])
    else
      var c, rest := src.chunks[0], src.chunks[1..];
      if |c| <= n then (Source(rest), c)
      else
        var cs := [c[n..]] + rest;
        assert cs[0] == c[n..] && cs[1..] == rest;
        assert c == c[..n] + c[n..];
        (Source(cs), c[..n])
  }

  // ---- BufferedReader ----

  datatype Buffered = Buffered(buf: seq<char>, iStart: nat, iEnd: nat, src: Source)

  /** `BufferedReader(reader)`: both offsets zero over a buffer of arbitrary contents. */
  function NewBuffered(init: seq<char>, src: Source): (b: Buffered)
    requires |init| == BufferSize
    ensures Valid(b) && Content(b) == Flatten(src.chunks)
  {
    Buffered(init, 0, 0, src)
  }

  /** The offsets delimit the unread chars inside the buffer. */
  predicate Valid(b: Buffered)
  {
    |b.buf| == BufferSize && b.iStart <= b.iEnd <= BufferSize
  }

  /** What the reader still has to hand out: the buffered chars, then the source's. */
  function Content(b: Buffered): seq<char>
    requires Valid(b)
  {
    b.buf[b.iStart..b.iEnd] + Flatten(b.src.chunks)
  }

  /**
   * The `while(ret < n)` loop: refill the buffer from the source and copy
   * from its start. The last refill, which fills the request, leaves the
   * unread rest in the buffer: from `d` to `s` as intended, or, when
   * `asWritten`, with `d` and `s` added to the offsets already there.
   */
  function ReadLoop(b: Buffered, out: seq<char>, n: nat, asWritten: bool): (res: (Buffered, seq<char>))
    requires |b.buf| == BufferSize && |out| <= n
    ensures |res.0.buf| == BufferSize && |out| <= |res.1| <= n
    decreases n - |out|
  {
    if |out| >= n then (b, out)
    else
      var (src, c) := SourceRead(b.src, BufferSize);
      var s := |c|;
      var buf := c + b.buf[s..];
      if s == 0 then (b.(src := src), out)
      else
        var d := n - |out|;
        if s < d then ReadLoop(b.(buf := buf, src := src), out + StrNCopy(buf, s), n, asWritten)
        else if asWritten then (Buffered(buf, SizeAdd(b.iStart, d), SizeAdd(b.iEnd, s), src), out + StrNCopy(buf, d))
        else (Buffered(buf, d, s, src), out + StrNCopy(buf, d))
  }

  /**
   * `BufferedReader::read(outData, n)`: serve from the buffered chars first,
   * then from the source. `None` stands for a copy that would read past the
   * end of the buffer array.
   */
  function ReadWith(b: Buffered, n: nat, asWritten: bool): (res: Option<(Buffered, seq<char>)>)
    requires |b.buf| == BufferSize
    ensures res.Some? ==> |res.value.0.buf| == BufferSize && |res.value.1| <= n
  {
    var s := SizeSub(b.iEnd, b.iStart);
    if s > 0 && s <= n then
      if b.iStart + s > BufferSize then None
      else Some(ReadLoop(b.(iStart := 0, iEnd := 0), StrNCopy(b.buf[b.iStart..], s), n, asWritten))
    else if s > 0 then
      if b.iStart + n > BufferSize then None
      else Some((b.(iStart := SizeAdd(b.iStart, n)), StrNCopy(b.buf[b.iStart..], n)))
    else
      Some(ReadLoop(b, [], n, asWritten))
  }

  /** Every piece of NUL-free text is NUL-free. */
  lemma NoNulSlice(s: seq<char>, i: nat, j: nat)
    requires NoNul(s) && i <= j <= |s|
    ensures NoNul(s[i..j])
  {
    forall k | 0 <= k < j - i
      ensures s[i..j][k] != '\0'
    {
      assert s[i..j][k] == s[i + k];
    }
  }

  /** Text is NUL-free exactly when both its parts are. */
  lemma NoNulConcat(a: seq<char>, b: seq<char>)
    ensures NoNul(a + b) <==> NoNul(a) && NoNul(b)
  {
    if NoNul(a + b) {
      assert a == (a + b)[..|a|] && b == (a + b)[|a|..];
      NoNulSlice(a + b, 0, |a|);
      NoNulSlice(a + b, |a|, |a + b|);
    }
  }

  /** A sequence that starts with `a + c` starts with `a`, and after `a` comes `c`. */
  lemma PrefixSplit<T>(o: seq<T>, a: seq<T>, c: seq<T>)
    requires |a + c| <= |o| && o[..|a + c|] == a + c
    ensures o[..|a|] == a && o[|a|..] == c + o[|a + c|..]
  {
    var k := |a|;
    assert o[..k] == (o[..|a + c|])[..k];
    assert o[k..] == o[k..|a + c|] + o[|a + c|..];
    assert o[k..|a + c|] == (o[..|a + c|])[k..];
  }

  /** Text `p` then `x`, where `o` starts with `p` and `x` is the rest of `o` then `y`, is `o` then `y`. */
  lemma JoinPrefix<T>(o: seq<T>, p: seq<T>, x: seq<T>, y: seq<T>)
    requires |p| <= |o| && o[..|p|] == p && x == o[|p|..] + y
    ensures p + x == o + y
  {
    assert o == o[..|p|] + o[|p|..];
  }

  /** One turn of the loop that does not fill the request: the chunk goes out whole. */
  lemma LoopFeeds(b: Buffered, out: seq<char>, n: nat)
    requires Valid(b) && b.iStart == b.iEnd && |out| < n && NoNul(Flatten(b.src.chunks))
    requires var (src, c) := SourceRead(b.src, BufferSize); 0 < |c| < n - |out|
    ensures var (src, c) := SourceRead(b.src, BufferSize);
            var b2 := b.(buf := c + b.buf[|c|..], src := src);
            Valid(b2) && b2.iStart == b2.iEnd && NoNul(Flatten(src.chunks))
            && ReadLoop(b, out, n, false) == ReadLoop(b2, out + c, n, false)
            && Content(b) == c + Content(b2)
  {
    var (src, c) := SourceRead(b.src, BufferSize);
    var buf := c + b.buf[|c|..];
    NoNulConcat(c, Flatten(src.chunks));
    assert buf[..|c|] == c;
    assert StrNCopy(buf, |c|) == c;
    var b2 := b.(buf := buf, src := src);
    assert Content(b2) == Flatten(src.chunks) by {
      assert buf[b.iStart..b.iStart] == [];
    }
  }

  /** The turn of the loop that fills the request: the rest of the chunk stays buffered. */
  lemma LoopFills(b: Buffered, out: seq<char>, n: nat)
    requires Valid(b) && b.iStart == b.iEnd && |out| < n && NoNul(Flatten(b.src.chunks))
    requires var (src, c) := SourceRead(b.src, BufferSize); |c| >= n - |out|
    ensures var (b1, o) := ReadLoop(b, out, n, false);
            Valid(b1) && |o| == n && o[..|out|] == out && Content(b) == o[|out|..] + Content(b1)
            && (NoEmptyChunk(b.src) ==> NoEmptyChunk(b1.src))
  {
    var (src, c) := SourceRead(b.src, BufferSize);
    var buf := c + b.buf[|c|..];
    var d := n - |out|;
    NoNulConcat(c, Flatten(src.chunks));
    NoNulSlice(c, 0, d);
    assert buf[..d] == c[..d] && buf[d..|c|] == c[d..];
    assert c == c[..d] + c[d..];
  }

  /** The loop from an empty buffer hands out the source's chars in order. */
  lemma {:induction false} LoopTransparent(b: Buffered, out: seq<char>, n: nat)
    requires Valid(b) && b.iStart == b.iEnd && |out| <= n && NoNul(Flatten(b.src.chunks))
    ensures var (b1, o) := ReadLoop(b, out, n, false);
            Valid(b1) && o[..|out|] == out && Content(b) == o[|out|..] + Content(b1)
    ensures var (b1, o) := ReadLoop(b, out, n, false);
            NoEmptyChunk(b.src) ==> NoEmptyChunk(b1.src) && (|o| == n || Content(b1) == [])
    decreases n - |out|
  {
    if |out| < n {
      var (src, c) := SourceRead(b.src, BufferSize);
      if |c| == 0 {
        assert Content(b) == Flatten(src.chunks);
      } else if |c| < n - |out| {
        LoopFeeds(b, out, n);
        var b2 := b.(buf := c + b.buf[|c|..], src := src);
        LoopTransparent(b2, out + c, n);
        var (b1, o) := ReadLoop(b2, out + c, n, false);
        PrefixSplit(o, out, c);
      } else {
        LoopFills(b, out, n);
      }
    }
  }

  /** What one `read(outData, n)` promises, for reader `b` becoming `b1` and handing out `o`. */
  predicate ReadsFrom(b: Buffered, n: nat, b1: Buffered, o: seq<char>)
    requires Valid(b)
  {
    Valid(b1) && |o| <= n && Content(b) == o + Content(b1)
    && (NoEmptyChunk(b.src) ==> NoEmptyChunk(b1.src) && (|o| == n || Content(b1) == []))
    && (b.iEnd - b.iStart >= n ==> b1.src == b.src && |o| == n)
  }

  /** Fewer chars buffered than asked for: they all go out, then the loop refills. */
  lemma ServeBufferThenLoop(b: Buffered, n: nat)
    requires Valid(b) && NoNul(Content(b)) && 0 < b.iEnd - b.iStart <= n
    ensures var (b1, o) := ReadLoop(b.(iStart := 0, iEnd := 0), b.buf[b.iStart..b.iEnd], n, false);
            ReadsFrom(b, n, b1, o)
  {
    var p, f := b.buf[b.iStart..b.iEnd], Flatten(b.src.chunks);
    NoNulConcat(p, f);
    var b0 := b.(iStart := 0, iEnd := 0);
    assert Content(b0) == f;
    LoopTransparent(b0, p, n);
    var (b1, o) := ReadLoop(b0, p, n, false);
    JoinPrefix(o, p, f, Content(b1));
  }

  /** More chars buffered than asked for: `n` of them go out and the source is left alone. */
  lemma ServeFromBuffer(b: Buffered, n: nat)
    requires Valid(b) && b.iEnd - b.iStart > n
    ensures ReadsFrom(b, n, b.(iStart := b.iStart + n), b.buf[b.iStart..b.iStart + n])
  {
    assert b.buf[b.iStart..b.iEnd] == b.buf[b.iStart..b.iStart + n] + b.buf[b.iStart + n..b.iEnd];
  }

  /** Nothing buffered: the loop serves the whole request from the source. */
  lemma ServeFromSource(b: Buffered, n: nat)
    requires Valid(b) && NoNul(Content(b)) && b.iEnd == b.iStart
    ensures var (b1, o) := ReadLoop(b, [], n, false); ReadsFrom(b, n, b1, o)
  {
    NoNulConcat(b.buf[b.iStart..b.iEnd], Flatten(b.src.chunks));
    LoopTransparent(b, [], n);
  }

  /**
   * The intended `read`: the chars handed out, followed by what is left,
   * are what the reader held; at most `n` go out, fewer only when nothing
   * is left; and with `n` chars buffered the source is not called.
   */
  function BufferedRead(b: Buffered, n: nat): (res: (Buffered, seq<char>))
    requires Valid(b) && NoNul(Content(b))
    ensures Valid(res.0) && |res.1| <= n
    ensures Content(b) == res.1 + Content(res.0)
    ensures NoEmptyChunk(b.src) ==> NoEmptyChunk(res.0.src) && (|res.1| == n || Content(res.0) == [])
    ensures b.iEnd - b.iStart >= n ==> res.0.src == b.src && |res.1| == n
  {
    var s := b.iEnd - b.iStart;
    if s > 0 && s <= n then
      ServeBufferThenLoop(b, n);
      ReadLoop(b.(iStart := 0, iEnd := 0), b.buf[b.iStart..b.iEnd], n, false)
    else if s > 0 then
      ServeFromBuffer(b, n);
      (b.(iStart := b.iStart + n), b.buf[b.iStart..b.iStart + n])
    else
      ServeFromSource(b, n);
      ReadLoop(b, [], n, false)
  }

  /** On a valid reader the code never reads outside the buffer, and its intended form is `BufferedRead`. */
  lemma ReadWithIsBufferedRead(b: Buffered, n: nat)
    requires Valid(b) && NoNul(Content(b))
    ensures ReadWith(b, n, false) == Some(BufferedRead(b, n))
  {
    var s := b.iEnd - b.iStart;
    var p := b.buf[b.iStart..b.iEnd];
    SizeSubExact(b.iEnd, b.iStart);
    NoNulConcat(p, Flatten(b.src.chunks));
    if s > n {
      CopyWithinBuffer(b, n);
    } else if s > 0 {
      assert StrNCopy(b.buf[b.iStart..], s) == p by {
        assert b.buf[b.iStart..][..s] == p;
      }
    }
  }

  /** Serving `n` of more than `n` buffered chars copies them and moves the start on. */
  lemma CopyWithinBuffer(b: Buffered, n: nat)
    requires Valid(b) && b.iEnd - b.iStart > n && NoNul(b.buf[b.iStart..b.iEnd])
    ensures ReadWith(b, n, false) == Some((b.(iStart := b.iStart + n), b.buf[b.iStart..b.iStart + n]))
  {
    var p := b.buf[b.iStart..b.iEnd];
    SizeSubExact(b.iEnd, b.iStart);
    SizeAddExact(b.iStart, n);
    NoNulSlice(p, 0, n);
    SliceOfSlice(b.buf, b.iStart, b.iEnd, n);
  }

  /** The first `k` after index `i` are the same stretch however the slice is taken. */
  lemma SliceOfSlice<T>(t: seq<T>, i: nat, j: nat, k: nat)
    requires i + k <= j <= |t|
    ensures t[i..][..k] == t[i..j][..k] == t[i..i + k]
  {
    assert |t[i..][..k]| == |t[i..i + k]| == k;
    forall m | 0 <= m < k
      ensures t[i..][..k][m] == t[i..i + k][m] && t[i..j][..k][m] == t[i..i + k][m]
    {
    }
  }

  /**
   * Over a source that never hands out an empty chunk before its end, a read
   * returns exactly the next `n` chars of the stream (all that is left when
   * fewer remain), and the rest of the stream stays readable.
   */
  lemma ReadTakesPrefix(b: Buffered, n: nat)
    requires Valid(b) && NoNul(Content(b)) && NoEmptyChunk(b.src)
    ensures var (b1, o) := BufferedRead(b, n);
            var m := if n <= |Content(b)| then n else |Content(b)|;
            o == Content(b)[..m] && Content(b1) == Content(b)[m..]
            && NoNul(Content(b1)) && NoEmptyChunk(b1.src)
  {
    var (b1, o) := BufferedRead(b, n);
    var c, c1 := Content(b), Content(b1);
    assert c == o + c1;
    assert o == c[..|o|] && c1 == c[|o|..];
    NoNulConcat(o, c1);
  }

  /**
   * With nothing buffered, a read of at most one chunk refills the array
   * from that chunk; as written, both offsets are moved on from where they
   * were, rather than set to `n` and the chunk's size.
   */
  lemma RefillOffsetsAsWritten(b: Buffered, c: seq<char>, rest: seq<seq<char>>, n: nat)
    requires |b.buf| == BufferSize && b.iStart == b.iEnd && b.src.chunks == [c] + rest
    requires 0 < n <= |c| <= BufferSize
    ensures var r := ReadWith(b, n, true);
            r.Some? && r.value.0 == Buffered(c + b.buf[|c|..], SizeAdd(b.iStart, n), SizeAdd(b.iEnd, |c|), Source(rest))
  {
    var cs := b.src.chunks;
    assert cs[0] == c && cs[1..] == rest;
    assert SourceRead(b.src, BufferSize) == (Source(rest), c);
  }

  /** When the chars it hands out hold no NUL, they are the first `n` of the chunk. */
  lemma RefillAsWritten(b: Buffered, c: seq<char>, rest: seq<seq<char>>, n: nat)
    requires |b.buf| == BufferSize && b.iStart == b.iEnd && b.src.chunks == [c] + rest
    requires 0 < n <= |c| <= BufferSize && NoNul(c[..n])
    ensures ReadWith(b, n, true)
         == Some((Buffered(c + b.buf[|c|..], SizeAdd(b.iStart, n), SizeAdd(b.iEnd, |c|), Source(rest)), c[..n]))
  {
    var cs := b.src.chunks;
    assert cs[0] == c && cs[1..] == rest;
    assert SourceRead(b.src, BufferSize) == (Source(rest), c);
    var buf := c + b.buf[|c|..];
    assert buf[..n] == c[..n];
    assert StrNCopy(buf, n) == c[..n];
    assert [] + c[..n] == c[..n];
  }

  /**
   * As written, reading 3, 1 and 2 chars from a source that yields two
   * chunks of three chars (say "abc" then "xyz") goes wrong on the third
   * read: the first read leaves both offsets at 3 instead of 0, the second
   * adds to them, and the third serves chars 4 and 5 of whatever the array
   * `init` held before, instead of the last two chars of `c2`.
   */
  lemma OffsetsDriftAsWritten(init: seq<char>, c1: seq<char>, c2: seq<char>)
    requires |init| == BufferSize && NoNul(init)
    requires |c1| == 3 && |c2| == 3 && NoNul(c1) && NoNul(c2)
    ensures var b0 := Buffered(init, 0, 0, Source([c1, c2]));
            var b1 := Buffered(c1 + init[3..], 3, 3, Source([c2]));
            var b2 := Buffered(c2 + init[3..], 4, 6, Source([]));
            && ReadWith(b0, 3, true) == Some((b1, c1))
            && ReadWith(b1, 1, true) == Some((b2, c2[..1]))
            && ReadWith(b2, 2, true) == Some((b2.(iStart := 0, iEnd := 0), init[4..6]))
  {
    var b0 := Buffered(init, 0, 0, Source([c1, c2]));
    var b1 := Buffered(c1 + init[3..], 3, 3, Source([c2]));
    var b2 := Buffered(c2 + init[3..], 4, 6, Source([]));
    assert ReadWith(b0, 3, true) == Some((b1, c1)) by {
      assert c1[..3] == c1;
      assert [c1, c2] == [c1] + [c2];
      RefillAsWritten(b0, c1, [c2], 3);
    }
    assert ReadWith(b1, 1, true) == Some((b2, c2[..1])) by {
      assert (c1 + init[3..])[3..] == init[3..];
      NoNulSlice(c2, 0, 1);
      assert [c2] == [c2] + [];
      RefillAsWritten(b1, c2, [], 1);
    }
    assert ReadWith(b2, 2, true) == Some((b2.(iStart := 0, iEnd := 0), init[4..6])) by {
      assert b2.buf[4..6] == init[4..6];
      NoNulSlice(init, 4, 6);
      StaleRead(b2, init[4..6]);
    }
  }

  /** A read of exactly what is buffered hands it out and leaves the buffer empty. */
  lemma StaleRead(b: Buffered, p: seq<char>)
    requires |b.buf| == BufferSize && b.iStart <= b.iEnd <= BufferSize
    requires p == b.buf[b.iStart..b.iEnd] && |p| > 0 && NoNul(p)
    ensures ReadWith(b, |p|, true) == Some((b.(iStart := 0, iEnd := 0), p))
  {
    assert SizeSub(b.iEnd, b.iStart) == |p|;
    assert b.buf[b.iStart..][..|p|] == p;
  }

  /** With the intended offsets the same three reads hand out the six chars in order. */
  lemma ThreeReadsInOrder(init: seq<char>, c1: seq<char>, c2: seq<char>)
    requires |init| == BufferSize
    requires |c1| == 3 && |c2| == 3 && NoNul(c1) && NoNul(c2)
    ensures var r1 := ReadWith(Buffered(init, 0, 0, Source([c1, c2])), 3, false);
            && r1.Some? && r1.value.1 == c1
            && var r2 := ReadWith(r1.value.0, 1, false);
            && r2.Some? && r2.value.1 == c2[..1]
            && var r3 := ReadWith(r2.value.0, 2, false);
            && r3.Some? && r3.value.1 == c2[1..]
  {
    var b0 := Buffered(init, 0, 0, Source([c1, c2]));
    var c := c1 + c2;
    assert Content(b0) == c by {
      assert [c1, c2][1..] == [c2] && [c2][1..] == [];
      assert Flatten([c2]) == c2 + Flatten([]) == c2;
      assert init[0..0] == [];
    }
    assert NoNul(c) by {
      NoNulConcat(c1, c2);
    }
    assert NoEmptyChunk(b0.src);
    ReadWithIsBufferedRead(b0, 3);
    ReadTakesPrefix(b0, 3);
    var (b1, d1) := BufferedRead(b0, 3);
    assert d1 == c1 && Content(b1) == c2 by {
      assert c[..3] == c1 && c[3..] == c2;
    }
    ReadWithIsBufferedRead(b1, 1);
    ReadTakesPrefix(b1, 1);
    var (b2, d2) := BufferedRead(b1, 1);
    ReadWithIsBufferedRead(b2, 2);
    ReadTakesPrefix(b2, 2);
    assert c2[1..][..2] == c2[1..];
  }

  /**
   * As written, a read that consumes a whole refill leaves both offsets at
   * its size; two full refills push `iEnd` to twice the buffer, and the next
   * read copies from past the end of the array.
   */
  lemma OverrunsBufferAsWritten(init: seq<char>, c1: seq<char>, c2: seq<char>)
    requires |init| == BufferSize && |c1| == BufferSize && |c2| == BufferSize
    ensures var b0 := Buffered(init, 0, 0, Source([c1, c2]));
            var b1 := Buffered(c1, BufferSize, BufferSize, Source([c2]));
            var b2 := Buffered(c2, BufferSize + 1, 2 * BufferSize, Source([]));
            && ReadWith(b0, BufferSize, true).Some? && ReadWith(b0, BufferSize, true).value.0 == b1
            && ReadWith(b1, 1, true).Some? && ReadWith(b1, 1, true).value.0 == b2
            && ReadWith(b2, BufferSize, true) == None
  {
    var b0 := Buffered(init, 0, 0, Source([c1, c2]));
    var b1 := Buffered(c1, BufferSize, BufferSize, Source([c2]));
    var b2 := Buffered(c2, BufferSize + 1, 2 * BufferSize, Source([]));
    assert ReadWith(b0, BufferSize, true).Some? && ReadWith(b0, BufferSize, true).value.0 == b1 by {
      assert [c1, c2] == [c1] + [c2];
      assert c1 + init[BufferSize..] == c1;
      SizeAddExact(0, BufferSize);
      RefillOffsetsAsWritten(b0, c1, [c2], BufferSize);
    }
    assert ReadWith(b1, 1, true).Some? && ReadWith(b1, 1, true).value.0 == b2 by {
      assert [c2] == [c2] + [];
      assert c2 + c1[BufferSize..] == c2;
      SizeAddExact(BufferSize, 1);
      SizeAddExact(BufferSize, BufferSize);
      RefillOffsetsAsWritten(b1, c2, [], 1);
    }
    assert ReadWith(b2, BufferSize, true) == None by {
      SizeSubExact(b2.iEnd, b2.iStart);
    }
  }
}
