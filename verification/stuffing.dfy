/**
  Byte stuffing on the serial link to the LED controller.

  Every frame begins with the two bytes ESCAPE, START, so a literal ESCAPE
  byte inside the data would be ambiguous. `Escape` removes the ambiguity by
  doubling each ESCAPE byte of the data; `Unescape` is its inverse, which
  collapses each ESCAPE, ESCAPE pair back to one ESCAPE and rejects a lone one.
 */
module Stuffing {
  import opened Wrappers

  /** One octet on the serial link. */
  type byte = x: int | 0 <= x < 256

  /** The escape byte that introduces every frame (0x13). */
  const ESCAPE: byte := 0x13

  /** How a single data byte appears after stuffing. */
  function Stuff(x: byte): seq<byte>
  {
    if x == ESCAPE then [ESCAPE, ESCAPE] else [x]
  }

  /** Replaces every ESCAPE byte of `data` by two ESCAPE bytes; other bytes pass unchanged. */
  function Escape(data: seq<byte>): (r: seq<byte>)
    ensures |data| <= |r| <= 2 * |data|
  {
    if data == [] then [] else Stuff(data[0]) + Escape(data[1..])
  }

  /**
    Collapses each ESCAPE, ESCAPE pair of `s` to one ESCAPE. Returns None when
    `s` holds an ESCAPE byte that is not followed by a second one.
   */
  function Unescape(s: seq<byte>): (r: Option<seq<byte>>)
    ensures r.Some? ==> |r.value| <= |s|
    decreases |s|
  {
    if s == [] then Some([])
    else if s[0] != ESCAPE then
      match Unescape(s[1..])
      case None => None
      case Some(d) => Some([s[0]] + d)
    else if |s| >= 2 && s[1] == ESCAPE then
      match Unescape(s[2..])
      case None => None
      case Some(d) => Some([ESCAPE] + d)
    else None
  }

  /** Stuffing adds exactly one byte for each ESCAPE byte of the data. */
  lemma {:induction false} EscapeLength(d: seq<byte>)
    ensures |Escape(d)| == |d| + multiset(d)[ESCAPE]
  {
    if d != [] {
      EscapeLength(d[1..]);
      assert d == [d[0]] + d[1..];
    }
  }

  /** Stuffing a concatenation is the concatenation of the stuffed parts. */
  lemma {:induction false} EscapeConcat(a: seq<byte>, b: seq<byte>)
    ensures Escape(a + b) == Escape(a) + Escape(b)
  {
    if a == [] {
      assert a + b == b;
    } else {
      assert (a + b)[0] == a[0];
      assert (a + b)[1..] == a[1..] + b;
      EscapeConcat(a[1..], b);
    }
  }

  /** Stuffing doubles the number of ESCAPE bytes and keeps the number of every other byte. */
  lemma {:induction false} EscapeCounts(d: seq<byte>, x: byte)
    ensures x == ESCAPE ==> multiset(Escape(d))[x] == 2 * multiset(d)[x]
    ensures x != ESCAPE ==> multiset(Escape(d))[x] == multiset(d)[x]
  {
    if d != [] {
      EscapeCounts(d[1..], x);
      assert multiset(d) == multiset([d[0]]) + multiset(d[1..]) by {
        assert d == [d[0]] + d[1..];
      }
      assert multiset(Escape(d)) == multiset(Stuff(d[0])) + multiset(Escape(d[1..]));
    }
  }

  /** Collapsing the pairs of a stuffed sequence gives back the original data. */
  lemma {:induction false} UnescapeEscape(d: seq<byte>)
    ensures Unescape(Escape(d)) == Some(d)
  {
    if d != [] {
      var s := Escape(d);
      UnescapeEscape(d[1..]);
      assert d == [d[0]] + d[1..];
      if d[0] == ESCAPE {
        assert s[2..] == Escape(d[1..]);
      } else {
        assert s[1..] == Escape(d[1..]);
      }
    }
  }

  /** Whatever `Unescape` accepts is exactly the stuffing of what it returns. */
  lemma {:induction false} EscapeUnescape(s: seq<byte>)
    requires Unescape(s).Some?
    ensures Escape(Unescape(s).value) == s
    decreases |s|
  {
    if s != [] {
      var d := Unescape(s).value;
      if s[0] != ESCAPE {
        EscapeUnescape(s[1..]);
        assert d == [s[0]] + Unescape(s[1..]).value;
        assert d[1..] == Unescape(s[1..]).value;
      } else {
        EscapeUnescape(s[2..]);
        assert d == [ESCAPE] + Unescape(s[2..]).value;
        assert d[1..] == Unescape(s[2..]).value;
      }
    }
  }

  /** Stuffing and unstuffing are inverse: `Unescape(s)` yields `d` exactly when `s` is the stuffing of `d`. */
  lemma StuffingRoundTrip(s: seq<byte>, d: seq<byte>)
    ensures Unescape(s) == Some(d) <==> s == Escape(d)
  {
    UnescapeEscape(d);
    if Unescape(s) == Some(d) {
      EscapeUnescape(s);
    }
  }

  /** Stuffing leaves `d` unchanged exactly when `d` holds no ESCAPE byte. */
  lemma {:induction false} EscapeIdentity(d: seq<byte>)
    ensures Escape(d) == d <==> ESCAPE !in d
  {
    EscapeLength(d);
    if ESCAPE !in d && d != [] {
      assert d == [d[0]] + d[1..];
      EscapeIdentity(d[1..]);
    }
  }

  /**
    True when `s` splits into single non-ESCAPE bytes and ESCAPE, ESCAPE
    pairs: the path by which `Unescape` accepts, spelled as a predicate.
   */
  predicate Stuffed(s: seq<byte>)
    decreases |s|
  {
    if s == [] then true
    else if s[0] != ESCAPE then Stuffed(s[1..])
    else |s| >= 2 && s[1] == ESCAPE && Stuffed(s[2..])
  }

  /** `Unescape` accepts exactly along the pairing that `Stuffed` spells out. */
  lemma {:induction false} AcceptedIsStuffed(s: seq<byte>)
    ensures Unescape(s).Some? <==> Stuffed(s)
    decreases |s|
  {
    if s != [] {
      if s[0] != ESCAPE {
        AcceptedIsStuffed(s[1..]);
      } else if |s| >= 2 {
        AcceptedIsStuffed(s[2..]);
      }
    }
  }

  /** `s[i..j]` is a maximal run of ESCAPE bytes: all ESCAPE, and no ESCAPE on either side. */
  predicate IsRun(s: seq<byte>, i: int, j: int)
  {
    0 <= i <= j <= |s|
    && (i == 0 || s[i - 1] != ESCAPE)
    && (j == |s| || s[j] != ESCAPE)
    && forall k :: i <= k < j ==> s[k] == ESCAPE
  }

  /** Every maximal run of ESCAPE bytes in `s` has even length. */
  ghost predicate RunsEven(s: seq<byte>)
  {
    forall i, j | IsRun(s, i, j) :: (j - i) % 2 == 0
  }

  /** The end of the run of ESCAPE bytes that starts at `i`. */
  function RunEnd(s: seq<byte>, i: nat): (j: nat)
    requires i <= |s|
    ensures i <= j <= |s|
    ensures j == |s| || s[j] != ESCAPE
    ensures forall k :: i <= k < j ==> s[k] == ESCAPE
    decreases |s| - i
  {
    if i == |s| || s[i] != ESCAPE then i else RunEnd(s, i + 1)
  }

  /** When every maximal ESCAPE run of `s` is even, every ESCAPE byte of `s` is paired. */
  lemma {:induction false} RunsEvenStuffed(s: seq<byte>)
    requires RunsEven(s)
    ensures Stuffed(s)
    decreases |s|
  {
    if s == [] {
    } else if s[0] != ESCAPE {
      var t := s[1..];
      forall i, j | IsRun(t, i, j)
        ensures (j - i) % 2 == 0
      {
        assert IsRun(s, i + 1, j + 1);
      }
      RunsEvenStuffed(t);
    } else {
      // the run that opens `s` is even and not empty, so it holds s[0] and s[1]
      var e := RunEnd(s, 0);
      assert IsRun(s, 0, e);
      assert |s| >= 2 && s[1] == ESCAPE;
      var t := s[2..];
      forall i, j | IsRun(t, i, j)
        ensures (j - i) % 2 == 0
      {
        if i == 0 {
          assert IsRun(s, 0, j + 2);
        } else {
          assert IsRun(s, i + 2, j + 2);
        }
      }
      RunsEvenStuffed(t);
    }
  }

  /** Dropping the first `n` bytes shifts a run of ESCAPE bytes `n` places to the left. */
  lemma ShiftRun(s: seq<byte>, n: nat, i: nat, j: nat)
    requires n <= i <= j <= |s|
    requires forall k :: i <= k < j ==> s[k] == ESCAPE
    ensures forall k :: i - n <= k < j - n ==> s[n..][k] == ESCAPE
  {
  }

  /**
    In a sequence whose ESCAPE bytes are all paired, every maximal run of
    ESCAPE bytes, `s[i..j]`, has even length.
   */
  lemma {:induction false} StuffedRunsEven(s: seq<byte>, i: nat, j: nat)
    requires Stuffed(s)
    requires i <= j <= |s|
    requires i == 0 || s[i - 1] != ESCAPE
    requires j == |s| || s[j] != ESCAPE
    requires forall k :: i <= k < j ==> s[k] == ESCAPE
    ensures (j - i) % 2 == 0
    decreases |s|
  {
    if i == j {
    } else if s[0] != ESCAPE {
      // s[0] is a data byte of its own, so the run starts after it
      ShiftRun(s, 1, i, j);
      StuffedRunsEven(s[1..], i - 1, j - 1);
    } else if i == 0 {
      // the run opens with the pair s[0], s[1]
      ShiftRun(s, 2, 2, j);
      StuffedRunsEven(s[2..], 0, j - 2);
    } else {
      // s[0], s[1] form one pair, so a run cannot start at s[1]
      ShiftRun(s, 2, i, j);
      StuffedRunsEven(s[2..], i - 2, j - 2);
    }
  }

  /** In the output of `Escape`, every maximal run of ESCAPE bytes has even length. */
  lemma EscapedRunsEven(d: seq<byte>, i: nat, j: nat)
    requires i <= j <= |Escape(d)|
    requires i == 0 || Escape(d)[i - 1] != ESCAPE
    requires j == |Escape(d)| || Escape(d)[j] != ESCAPE
    requires forall k :: i <= k < j ==> Escape(d)[k] == ESCAPE
    ensures (j - i) % 2 == 0
  {
    UnescapeEscape(d);
    AcceptedIsStuffed(Escape(d));
    StuffedRunsEven(Escape(d), i, j);
  }

  /**
    `Unescape` accepts exactly the sequences in which every maximal run of
    ESCAPE bytes has even length, that is, in which no ESCAPE is left unpaired.
   */
  lemma StuffedAccepted(s: seq<byte>)
    ensures Unescape(s).Some? <==> RunsEven(s)
  {
    AcceptedIsStuffed(s);
    if Stuffed(s) {
      forall i, j | IsRun(s, i, j)
        ensures (j - i) % 2 == 0
      {
        StuffedRunsEven(s, i, j);
      }
    }
    if RunsEven(s) {
      RunsEvenStuffed(s);
    }
  }

  /** A lone ESCAPE in front of stuffed data is unpaired, so `Unescape` rejects the whole. */
  lemma LoneEscapeFirst(p: seq<byte>)
    ensures Unescape([ESCAPE] + Escape(p)) == None
  {
    var s := [ESCAPE] + Escape(p);
    EscapeCounts(p, ESCAPE);
    assert multiset(s) == multiset([ESCAPE]) + multiset(Escape(p));
    UnpairedEscapeRejected(s);
  }

  /** A byte other than ESCAPE in front of stuffed data unstuffs to itself. */
  lemma PlainByteFirst(n: byte, p: seq<byte>)
    requires n != ESCAPE
    ensures Unescape([n] + Escape(p)) == Some([n] + p)
  {
    EscapeConcat([n], p);
    assert Escape([n]) == [n];
    UnescapeEscape([n] + p);
  }

  lemma OddIsNotDouble(n: int, k: int)
    requires n % 2 == 1
    ensures n != 2 * k
  {
  }

  /** A sequence holding an odd number of ESCAPE bytes has an unpaired one, and `Unescape` rejects it. */
  lemma UnpairedEscapeRejected(s: seq<byte>)
    requires multiset(s)[ESCAPE] % 2 == 1
    ensures Unescape(s) == None
  {
    if Unescape(s).Some? {
      var d: seq<byte> := Unescape(s).value;
      EscapeUnescape(s);
      EscapeCounts(d, ESCAPE);
      OddIsNotDouble(multiset(s)[ESCAPE], multiset(d)[ESCAPE]);
    }
  }
}
