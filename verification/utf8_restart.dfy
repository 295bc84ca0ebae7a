/** Decoding UTF-8 in pieces: mbrtoc32 with the partial character kept as bytes, and with the
    partial character packed into two words. */
module Utf8Restart {
  import opened Utf8

  // ----- Decoding a whole string -----

  /** Where decoding stands: at a character that still needs bytes (or at none), or stopped
      at an ill-formed sequence. */
  datatype Status = Pending(bytes: seq<bv8>) | IllFormed

  datatype Decoded = Decoded(chars: seq<bv32>, status: Status)

  function Ahead(wc: bv32, d: Decoded): Decoded { Decoded([wc] + d.chars, d.status) }

  ghost function Whole(s: seq<bv8>): Decoded {
    if s == [] then Decoded([], Pending([]))
    else
      DecideAccepts(s);
      match Decide(s)
      case Complete(wc, res) => Ahead(wc, Whole(s[Length(res)..]))
      case Incomplete => Decoded([], Pending(s))
      case Invalid => Decoded([], IllFormed)
  }

  // ----- Decoding one call at a time -----

  /** What mbrtoc32 returns. `count` is 0 for a null character. */
  datatype Ret = Got(count: nat, wc: bv32) | Partial | Illegal | BadState | Aborted

  ghost predicate PendingOk(pending: seq<bv8>) { pending == [] || Decide(pending).Incomplete? }

  /** With `pending` bytes of a character seen in earlier calls, what a call on `s` does. */
  ghost function Outcome(pending: seq<bv8>, s: seq<bv8>): Ret
    requires s != []
  {
    match Decide(pending + s)
    case Complete(wc, res) => if res >= |pending| then Got(res - |pending|, wc) else Aborted
    case Incomplete => Partial
    case Invalid => Illegal
  }

  /** The bytes pending after it. POSIX leaves the state undefined after an ill-formed
      sequence; the code does not touch it. */
  ghost function After(pending: seq<bv8>, s: seq<bv8>): seq<bv8>
    requires s != []
  {
    match Decide(pending + s)
    case Complete(_, _) => []
    case Incomplete => pending + s
    case Invalid => pending
  }

  /** A call returns a character exactly if the bytes pending and new begin with one; it asks
      for more exactly if they can be continued to one, and the bytes are then pending; and
      after an ill-formed sequence the pending bytes are still there. */
  lemma OutcomeMeans(pending: seq<bv8>, s: seq<bv8>)
    requires PendingOk(pending) && s != []
    ensures var q, r, p := pending + s, Outcome(pending, s), After(pending, s);
      && (r.Got? <==> exists k :: 0 < k <= |q| && Utf8Char(q[..k]))
      && (r == Partial <==> exists t :: t != [] && Utf8Char(q + t))
      && (r.Got? || r == Partial || r == Illegal)
      && (r.Got? ==>
            var k := |pending| + Length(r.count);
            p == [] && k <= |q| && Utf8Char(q[..k]) && r.wc == Value(q[..k]) && (r.count == 0 <==> r.wc == 0))
      && (r == Partial ==> p == q)
      && (r == Illegal ==> p == pending)
  {
    hide Decide, Utf8Char, Value, Scalar;
    var q := pending + s;
    DecideAccepts(q);
    DecideWaits(q);
    if pending != [] && Decide(q).Complete? { DecideGrows(pending, s); }
    if k :| 0 < k <= |q| && Utf8Char(q[..k]) {
      DecideFinds(q[..k], q[k..]);
      assert q == q[..k] + q[k..];
    }
  }

  /** A caller that calls until the chunk is used up. A null character is one byte long. */
  ghost function FeedChunk(pending: seq<bv8>, chunk: seq<bv8>): Decoded
    decreases |chunk|
  {
    if chunk == [] then Decoded([], Pending(pending))
    else match Outcome(pending, chunk)
      case Got(count, wc) =>
        if Length(count) <= |chunk| then Ahead(wc, FeedChunk([], chunk[Length(count)..])) else Decoded([], IllFormed)
      case Partial => Decoded([], Pending(After(pending, chunk)))
      case _ => Decoded([], IllFormed)
  }

  ghost function FeedAll(pending: seq<bv8>, chunks: seq<seq<bv8>>): Decoded
    decreases |chunks|
  {
    if chunks == [] then Decoded([], Pending(pending))
    else
      var d := FeedChunk(pending, chunks[0]);
      if d.status.IllFormed? then d
      else
        var rest := FeedAll(d.status.bytes, chunks[1..]);
        Decoded(d.chars + rest.chars, rest.status)
  }

  ghost function Flatten(chunks: seq<seq<bv8>>): seq<bv8> {
    if chunks == [] then [] else chunks[0] + Flatten(chunks[1..])
  }

  lemma WholeStep(s: seq<bv8>)
    requires s != []
    ensures Decide(s).Complete? ==> Length(Decide(s).res) <= |s| && Whole(s) == Ahead(Decide(s).wc, Whole(s[Length(Decide(s).res)..]))
    ensures Decide(s).Incomplete? ==> Whole(s) == Decoded([], Pending(s))
    ensures Decide(s).Invalid? ==> Whole(s) == Decoded([], IllFormed)
  {
    DecideAccepts(s);
  }

  /** What is decoded from a prefix stays decoded. */
  lemma {:induction false} WholeSplits(x: seq<bv8>, y: seq<bv8>)
    ensures var d := Whole(x);
      && (d.status.Pending? ==> PendingOk(d.status.bytes))
      && (d.status.Pending? ==>
           Whole(x + y) == Decoded(d.chars + Whole(d.status.bytes + y).chars, Whole(d.status.bytes + y).status))
      && (d.status.IllFormed? ==> Whole(x + y) == d)
    decreases |x|
  {
    hide Decide, Whole;
    WholeNone();
    if x == [] {
      assert x + y == y && [] + y == y && [] + Whole(y).chars == Whole(y).chars;
    } else {
      WholeStep(x);
      WholeStep(x + y);
      assert [] + Whole(x + y).chars == Whole(x + y).chars;
      if !Decide(x).Incomplete? { DecideStays(x, y); }
      if Decide(x).Complete? {
        var k, wc := Length(Decide(x).res), Decide(x).wc;
        WholeSplits(x[k..], y);
        assert (x + y)[k..] == x[k..] + y;
        var d := Whole(x[k..]);
        if d.status.Pending? {
          var r := Whole(d.status.bytes + y);
          assert [wc] + (d.chars + r.chars) == [wc] + d.chars + r.chars;
        }
      }
    }
  }

  lemma DropBoth(x: seq<bv8>, y: seq<bv8>, k: nat)
    requires k <= |y|
    ensures (x + y)[|x| + k..] == y[k..]
  {
  }

  lemma WholeNone()
    ensures Whole([]) == Decoded([], Pending([]))
  {
  }

  /** One chunk, fed call by call, is decoded like the pending bytes and the chunk at once. */
  lemma {:induction false} FeedIsWhole(pending: seq<bv8>, chunk: seq<bv8>)
    requires PendingOk(pending)
    ensures FeedChunk(pending, chunk) == Whole(pending + chunk)
    decreases |chunk|
  {
    hide Decide, Whole;
    WholeNone();
    var s := pending + chunk;
    if chunk == [] {
      assert s == pending;
      if pending != [] { WholeStep(pending); }
    } else {
      WholeStep(s);
      DecideAccepts(s);
      if Decide(s).Complete? {
        if pending == [] { assert s == chunk; } else { DecideGrows(pending, chunk); }
        var count := Length(Decide(s).res - |pending|);
        assert Length(Decide(s).res) == |pending| + count;
        DropBoth(pending, chunk, count);
        FeedIsWhole([], chunk[count..]);
        assert [] + chunk[count..] == chunk[count..];
      }
    }
  }

  /** However a string is split into chunks, the characters and the final verdict are those
      of decoding it whole. */
  lemma {:induction false} ChunksDoNotMatter(pending: seq<bv8>, chunks: seq<seq<bv8>>)
    requires PendingOk(pending)
    ensures FeedAll(pending, chunks) == Whole(pending + Flatten(chunks))
    decreases |chunks|
  {
    hide Decide, Whole;
    if chunks == [] {
      FeedIsWhole(pending, []);
    } else {
      var rest := Flatten(chunks[1..]);
      FeedIsWhole(pending, chunks[0]);
      WholeSplits(pending + chunks[0], rest);
      assert pending + Flatten(chunks) == pending + chunks[0] + rest;
      var d := FeedChunk(pending, chunks[0]);
      if d.status.Pending? { ChunksDoNotMatter(d.status.bytes, chunks[1..]); }
    }
  }

  // ----- Round trips and what is accepted -----

  ghost predicate Scalars(ws: seq<bv32>) { forall i | 0 <= i < |ws| :: Scalar(ws[i]) }

  ghost function EncodeAll(ws: seq<bv32>): seq<bv8>
    requires Scalars(ws)
  {
    if ws == [] then [] else Encoding(ws[0]) + EncodeAll(ws[1..])
  }

  /** Decoding what was encoded gives it back. */
  lemma {:induction false} DecodeEncoded(ws: seq<bv32>)
    requires Scalars(ws)
    ensures Whole(EncodeAll(ws)) == Decoded(ws, Pending([]))
    decreases |ws|
  {
    hide Decide, Whole, Encoding;
    WholeNone();
    if ws != [] {
      var c, rest := Encoding(ws[0]), EncodeAll(ws[1..]);
      EncodingIsChar(ws[0]);
      DecideFinds(c, rest);
      WholeStep(c + rest);
      assert (c + rest)[|c|..] == rest;
      assert Utf8Char(c) && Length(Decide(c + rest).res) == |c| by { NullIsOneByte(c); }
      DecodeEncoded(ws[1..]);
      assert ws == [ws[0]] + ws[1..];
    }
  }

  lemma NullIsOneByte(c: seq<bv8>)
    requires Utf8Char(c)
    ensures Value(c) == 0 ==> |c| == 1
  {
    DecideFinds(c, []);
    assert c + [] == c;
    hide Value;
  }

  /** Encoding what was decoded, when all of it could be, gives back the same bytes. */
  lemma {:induction false} EncodeDecoded(s: seq<bv8>)
    requires Whole(s).status == Pending([])
    ensures Scalars(Whole(s).chars) && EncodeAll(Whole(s).chars) == s
    decreases |s|
  {
    hide Decide, Whole, Encoding, Utf8Char, Scalar, Value;
    WholeNone();
    if s != [] {
      WholeStep(s);
      DecideAccepts(s);
      var k, wc := Length(Decide(s).res), Decide(s).wc;
      EncodingUnique(s[..k]);
      EncodeDecoded(s[k..]);
      var rest := Whole(s[k..]).chars;
      assert Whole(s).chars[1..] == rest && Whole(s).chars[0] == wc;
      assert s == s[..k] + s[k..];
    }
  }

  /** UTF8-octets of section 4 of RFC 3629. */
  ghost predicate Utf8Octets(s: seq<bv8>)
    decreases |s|
  {
    s == [] || exists k | 1 <= k <= |s| :: Utf8Char(s[..k]) && Utf8Octets(s[k..])
  }

  /** A string is decoded to its end exactly if it is UTF-8 as RFC 3629 defines it. */
  lemma {:induction false} AcceptsExactly(s: seq<bv8>)
    ensures Whole(s).status == Pending([]) <==> Utf8Octets(s)
    decreases |s|
  {
    hide Decide, Whole, Utf8Char, Value, Scalar;
    WholeNone();
    if s != [] {
      WholeStep(s);
      if Decide(s).Complete? {
        DecideAccepts(s);
        AcceptsExactly(s[Length(Decide(s).res)..]);
      }
      if Utf8Octets(s) {
        var k :| 1 <= k <= |s| && Utf8Char(s[..k]) && Utf8Octets(s[k..]);
        DecideFinds(s[..k], s[k..]);
        assert s == s[..k] + s[k..];
        NullIsOneByte(s[..k]);
      }
    }
  }
}
