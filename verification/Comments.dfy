/**
Where `ScanPairGreedy` ends a comment, against where its parentheses are balanced.
*/
module Comments {
  import opened Octets
  import opened Lexer

  // ---------- the balanced end ----------

  /** How many closing bytes that no backslash precedes stand in front of place `k`. */
  function Closed(data: Bytes, close: Byte, k: nat): nat
    requires k <= |data|
  {
    if k == 0 then 0 else Closed(data, close, k - 1) + if IsUnescaped(data, close, k - 1) then 1 else 0
  }

  /** How many pairs are open behind the byte at `k`, one being open before the data. */
  function Depth(data: Bytes, open: Byte, close: Byte, k: nat): int
    requires k < |data|
  {
    1 + CountByte(data[..k], open) - Closed(data, close, k + 1)
  }

  /** The first closing byte behind which nothing is open. */
  predicate IsBalancedEnd(data: Bytes, open: Byte, close: Byte, r: int) {
    && -1 <= r < |data|
    && (r >= 0 ==> data[r] == close && Depth(data, open, close, r) == 0)
    && forall k :: 0 <= k < (if r < 0 then |data| else r) && data[k] == close ==> Depth(data, open, close, k) > 0
  }

  /** The search of the source with the window that was meant: from the position to the closing byte. */
  function Balanced(data: Bytes, open: Byte, close: Byte, n: nat, pairs: int): (r: int)
    requires n <= |data|
    ensures -1 <= r < |data|
    decreases |data| - n
  {
    var i := IndexByte(data[n..], close);
    if i == -1 then -1
    else
      var now := Left(data, close, n, i, pairs) + CountByte(data[n..n + i], open);
      if now == 0 then n + i else Balanced(data, open, close, n + i + 1, now)
  }

  /** The pairs left by the closing byte at `n + i`. */
  function Left(data: Bytes, close: Byte, n: nat, i: nat, pairs: int): int
    requires n + i < |data|
  {
    if IsUnescaped(data, close, n + i) then pairs - 1 else pairs
  }

  lemma {:induction false} CountUpTo(data: Bytes, open: Byte, n: nat, m: nat)
    requires n <= m <= |data|
    ensures CountByte(data[..m], open) == CountByte(data[..n], open) + CountByte(data[n..m], open)
  {
    assert data[..m] == data[..n] + data[n..m];
    CountConcat(data[..n], data[n..m], open);
  }

  lemma {:induction false} CountConcat(a: Bytes, b: Bytes, c: Byte)
    ensures CountByte(a + b, c) == CountByte(a, c) + CountByte(b, c)
  {
    if a == [] {
      assert a + b == b;
    } else {
      assert (a + b)[1..] == a[1..] + b;
      CountConcat(a[1..], b, c);
    }
  }

  lemma {:induction false} NoneClosed(data: Bytes, close: Byte, n: nat, k: nat)
    requires n <= k <= |data| && forall j :: n <= j < k ==> data[j] != close
    ensures Closed(data, close, k) == Closed(data, close, n)
    decreases k - n
  {
    if k > n {
      NoneClosed(data, close, n, k - 1);
    }
  }

  /** The next closing byte, and how many pairs are open behind it. */
  lemma {:induction false} NextClose(data: Bytes, open: Byte, close: Byte, n: nat, pairs: int)
    requires n <= |data| && open != close
    requires pairs == 1 + CountByte(data[..n], open) - Closed(data, close, n)
    ensures
      var i := IndexByte(data[n..], close);
      if i == -1 then forall k :: n <= k < |data| ==> data[k] != close
      else
        && data[n + i] == close && (forall k :: n <= k < n + i ==> data[k] != close)
        && Depth(data, open, close, n + i) == Left(data, close, n, i, pairs) + CountByte(data[n..n + i], open)
        && Depth(data, open, close, n + i)
           == 1 + CountByte(data[..n + i + 1], open) - Closed(data, close, n + i + 1)
  {
    var i := IndexByte(data[n..], close);
    if i == -1 {
      assert forall k :: n <= k < |data| ==> data[k] == data[n..][k - n];
    } else {
      assert forall k :: n <= k < n + i ==> data[k] == data[n..][..i][k - n];
      NoneClosed(data, close, n, n + i);
      CountUpTo(data, open, n, n + i);
      CountUpTo(data, open, n + i, n + i + 1);
      assert data[n + i..n + i + 1] == [close];
      CountByteNone([close], open);
    }
  }

  lemma {:induction false} BalancedFrom(data: Bytes, open: Byte, close: Byte, n: nat, pairs: int)
    requires n <= |data| && open != close && pairs > 0
    requires pairs == 1 + CountByte(data[..n], open) - Closed(data, close, n)
    requires forall k :: 0 <= k < n && data[k] == close ==> Depth(data, open, close, k) > 0
    ensures IsBalancedEnd(data, open, close, Balanced(data, open, close, n, pairs))
    decreases |data| - n
  {
    hide IndexByte, CountByte, Closed, Depth;
    NextClose(data, open, close, n, pairs);
    var i := IndexByte(data[n..], close);
    if i != -1 {
      var now := Left(data, close, n, i, pairs) + CountByte(data[n..n + i], open);
      if now != 0 {
        BalancedFrom(data, open, close, n + i + 1, now);
      }
    }
  }

  /** With that window the search finds the first closing byte behind which nothing is open. */
  lemma {:induction false} BalancedMeans(data: Bytes, open: Byte, close: Byte)
    requires open != close
    ensures IsBalancedEnd(data, open, close, Balanced(data, open, close, 0, 1))
  {
    assert data[..0] == [];
    BalancedFrom(data, open, close, 0, 1);
  }

  // ---------- the window of the source ----------

  /** How many opening bytes the source counts on its way to the closing byte at `n + i`. */
  function Counted(data: Bytes, open: Byte, n: nat, i: nat): nat
    requires n + i < |data|
  {
    if n < i then CountByte(data[n..i], open) else 0
  }

  lemma {:induction false} CountsTooFew(data: Bytes, open: Byte, n: nat, i: nat)
    requires n + i < |data|
    ensures Counted(data, open, n, i) <= CountByte(data[n..n + i], open)
    ensures n == 0 ==> Counted(data, open, n, i) == CountByte(data[n..n + i], open)
  {
    if n < i {
      assert data[n..n + i] == data[n..i] + data[i..n + i];
      CountConcat(data[n..i], data[i..n + i], open);
    } else if i == 0 {
      assert data[n..n + i] == [];
    }
  }

  /** Before it ends, the source passes over an opening byte: one behind the offset it takes for a position. */
  predicate Misses(data: Bytes, open: Byte, close: Byte, n: nat, pairs: int)
    requires n <= |data|
    decreases |data| - n
  {
    var i := IndexByte(data[n..], close);
    i != -1 &&
      var now := PairsAt(data, open, close, n, i, pairs);
      || Counted(data, open, n, i) < CountByte(data[n..n + i], open)
      || (now != 0 && Misses(data, open, close, n + i + 1, now))
  }

  /** With `pairs` open by the count of the source, and at least as many in truth, it ends first. */
  lemma {:induction false} EndsFirst(data: Bytes, open: Byte, close: Byte, n: nat, pairs: int, truly: int)
    requires n <= |data| && 0 < pairs <= truly
    ensures
      var r, b := PairEnd(data, open, close, n, pairs), Balanced(data, open, close, n, truly);
      (r == -1 ==> b == -1) && (b != -1 ==> 0 <= r <= b)
    decreases |data| - n
  {
    hide IndexByte, CountByte, Counted, PairsAt, IsUnescaped, Left;
    var i := IndexByte(data[n..], close);
    if i != -1 {
      CountsTooFew(data, open, n, i);
      BothLeft(data, open, close, n, i, pairs, truly);
      var now, truth := PairsAt(data, open, close, n, i, pairs),
        Left(data, close, n, i, truly) + CountByte(data[n..n + i], open);
      if now != 0 {
        EndsFirst(data, open, close, n + i + 1, now, truth);
      } else if truth != 0 {
        EndsLater(data, open, close, n + i + 1, truth);
      }
    }
  }

  /** Where it ends, it agrees exactly when it has counted all. */
  lemma {:induction false} EndsAlike(data: Bytes, open: Byte, close: Byte, n: nat, pairs: int, truly: int)
    requires n <= |data| && 0 < pairs <= truly
    ensures
      var r, b := PairEnd(data, open, close, n, pairs), Balanced(data, open, close, n, truly);
      r != -1 ==> (r == b <==> pairs == truly && !Misses(data, open, close, n, pairs))
    decreases |data| - n
  {
    hide IndexByte, CountByte, Counted, PairsAt, IsUnescaped, Left;
    var i := IndexByte(data[n..], close);
    if i != -1 {
      CountsTooFew(data, open, n, i);
      BothLeft(data, open, close, n, i, pairs, truly);
      var now, truth := PairsAt(data, open, close, n, i, pairs),
        Left(data, close, n, i, truly) + CountByte(data[n..n + i], open);
      if now != 0 {
        EndsAlike(data, open, close, n + i + 1, now, truth);
      } else if truth != 0 {
        EndsLater(data, open, close, n + i + 1, truth);
      }
    }
  }

  lemma {:induction false} BothLeft(data: Bytes, open: Byte, close: Byte, n: nat, i: nat, pairs: int, truly: int)
    requires n + i < |data| && 0 < pairs <= truly
    ensures PairsAt(data, open, close, n, i, pairs) == Left(data, close, n, i, pairs) + Counted(data, open, n, i)
    ensures 0 <= Left(data, close, n, i, pairs)
    ensures Left(data, close, n, i, truly) - Left(data, close, n, i, pairs) == truly - pairs
  {
    hide CountByte;
  }

  lemma {:induction false} EndsLater(data: Bytes, open: Byte, close: Byte, n: nat, pairs: int)
    requires n <= |data|
    ensures Balanced(data, open, close, n, pairs) == -1 || Balanced(data, open, close, n, pairs) >= n
    decreases |data| - n
  {
    hide CountByte;
    var i := IndexByte(data[n..], close);
    if i != -1 {
      var now := Left(data, close, n, i, pairs) + CountByte(data[n..n + i], open);
      if now != 0 {
        EndsLater(data, open, close, n + i + 1, now);
      }
    }
  }

  /**
  A comment never ends behind its balanced end, and where it ends it is balanced if and only if no
  opening byte was passed over on the way.
  */
  lemma {:induction false} CommentEndsRight(data: Bytes)
    ensures
      var r, b := PairEnd(data, OPEN, CLOSE, 0, 1), Balanced(data, OPEN, CLOSE, 0, 1);
      && IsBalancedEnd(data, OPEN, CLOSE, b)
      && (r == b <==> r == -1 || !Misses(data, OPEN, CLOSE, 0, 1))
      && (b != -1 ==> 0 <= r <= b)
  {
    BalancedMeans(data, OPEN, CLOSE);
    EndsFirst(data, OPEN, CLOSE, 0, 1, 1);
    EndsAlike(data, OPEN, CLOSE, 0, 1, 1);
  }

  /** It is balanced when no opening byte stands behind the first closing one. */
  lemma {:induction false} OneNestIsRight(data: Bytes)
    requires forall j, k :: 0 <= j < k < |data| && data[j] == CLOSE ==> data[k] != OPEN
    ensures PairEnd(data, OPEN, CLOSE, 0, 1) == Balanced(data, OPEN, CLOSE, 0, 1)
  {
    NothingMissed(data, 0, 1);
    CommentEndsRight(data);
  }

  lemma {:induction false} NothingMissed(data: Bytes, n: nat, pairs: int)
    requires forall j, k :: 0 <= j < k < |data| && data[j] == CLOSE ==> data[k] != OPEN
    requires n <= |data| && (n > 0 ==> data[n - 1] == CLOSE)
    ensures !Misses(data, OPEN, CLOSE, n, pairs)
    decreases |data| - n
  {
    hide CountByte;
    var i := IndexByte(data[n..], CLOSE);
    if i != -1 {
      CountsTooFew(data, OPEN, n, i);
      if n > 0 {
        assert forall k :: n <= k < n + i ==> data[k] != OPEN;
        CountByteNone(data[n..n + i], OPEN);
      }
      var now := PairsAt(data, OPEN, CLOSE, n, i, pairs);
      if now != 0 {
        assert data[n + i] == data[n..][i];
        NothingMissed(data, n + i + 1, now);
      }
    }
  }

  /** In `(()())` the comment is ended by the second closing byte instead of the third. */
  lemma {:induction false} SecondNestIsMissed()
    ensures PairEnd([OPEN, CLOSE, OPEN, CLOSE, CLOSE], OPEN, CLOSE, 0, 1) == 3
    ensures Balanced([OPEN, CLOSE, OPEN, CLOSE, CLOSE], OPEN, CLOSE, 0, 1) == 4
  {
    hide IndexByte, CountByte;
    var d := [OPEN, CLOSE, OPEN, CLOSE, CLOSE];
    assert d[0..] == d && d[2..] == [OPEN, CLOSE, CLOSE] && d[4..] == [CLOSE];
    NextIn(d, 0, 1);
    NextIn(d, 2, 1);
    NextIn(d, 4, 0);
    assert d[0..1] == [OPEN] && d[2..3] == [OPEN] && d[4..4] == [];
    OneAndNone();
    assert Balanced(d, OPEN, CLOSE, 4, 1) == 4;
    assert Balanced(d, OPEN, CLOSE, 2, 1) == 4;
  }

  lemma {:induction false} NextIn(d: Bytes, n: nat, i: nat)
    requires n + i < |d| && d[n + i] == CLOSE && forall k :: n <= k < n + i ==> d[k] == OPEN
    ensures IndexByte(d[n..], CLOSE) == i
  {
    hide IndexByte;
    IndexByteFirst(d[n..], CLOSE, i);
  }

  lemma {:induction false} OneAndNone()
    ensures CountByte([OPEN], OPEN) == 1 && CountByte([], OPEN) == 0
  {
  }
}
