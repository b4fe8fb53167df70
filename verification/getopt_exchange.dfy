/** The block exchange at the heart of the permuting option scanner. */
module GetoptExchange {

  /** `s` with the blocks `[x, m)` and `[m, y)` in exchanged places. */
  function Exchanged<T>(s: seq<T>, x: nat, m: nat, y: nat): seq<T>
    requires x <= m <= y <= |s|
  {
    s[..x] + s[m..y] + s[x..m] + s[y..]
  }

  /** Where the element that belongs at index `k` after the exchange stands before it. */
  function From(x: nat, m: nat, y: nat, k: nat): (j: nat)
    requires x <= m <= y
    ensures j < y <==> k < y
    ensures k >= y ==> j == k
  {
    if k < x || k >= y then k
    else if k < x + (y - m) then m + (k - x)
    else k - (y - m)
  }

  lemma {:induction false} ExchangedAt<T>(s: seq<T>, x: nat, m: nat, y: nat, k: nat)
    requires x <= m <= y <= |s| && k < |s|
    ensures |Exchanged(s, x, m, y)| == |s|
    ensures Exchanged(s, x, m, y)[k] == s[From(x, m, y, k)]
  {
  }

  /** Exchanging the blocks of `s` that are still to be exchanged gives `want`. */
  ghost predicate LeadsTo<T>(s: seq<T>, x: nat, m: nat, y: nat, want: seq<T>)
  {
    && x <= m <= y <= |s| == |want|
    && forall k: nat :: k < |s| ==> want[k] == s[From(x, m, y, k)]
  }

  /** `t` is `s` with the two blocks of length `n` at `x` and `y` swapped. */
  ghost predicate Swapped<T>(s: seq<T>, t: seq<T>, x: nat, y: nat, n: nat)
  {
    && x + n <= y && y + n <= |s| == |t|
    && (forall k :: x <= k < x + n ==> t[k] == s[y + (k - x)])
    && (forall k :: y <= k < y + n ==> t[k] == s[x + (k - y)])
    && (forall k :: 0 <= k < |s| && !(x <= k < x + n) && !(y <= k < y + n) ==> t[k] == s[k])
  }

  /** The inner loops of `exchange`. */
  method SwapBlocks<T>(a: array<T>, x: nat, y: nat, n: nat)
    requires x + n <= y && y + n <= a.Length
    modifies a
    ensures Swapped(old(a[..]), a[..], x, y, n)
  {
    ghost var s := a[..];
    var i := 0;
    while i < n
      invariant i <= n
      invariant forall k :: x <= k < x + i ==> a[k] == s[y + (k - x)]
      invariant forall k :: y <= k < y + i ==> a[k] == s[x + (k - y)]
      invariant forall k :: 0 <= k < a.Length && !(x <= k < x + i) && !(y <= k < y + i) ==> a[k] == s[k]
    {
      a[x + i], a[y + i] := a[y + i], a[x + i];
      i := i + 1;
    }
  }

  /** Swapping the front block, when it is the shorter one, with the far end of the other
      leaves a smaller exchange. */
  lemma {:induction false} FrontShort<T>(s: seq<T>, t: seq<T>, x: nat, m: nat, y: nat, y': nat, want: seq<T>)
    requires x < m < y' < y && y - y' == m - x && LeadsTo(s, x, m, y, want) && Swapped(s, t, x, y', m - x)
    ensures LeadsTo(t, x, m, y', want)
  {
    forall k: nat | k < |s|
      ensures want[k] == t[From(x, m, y', k)]
    {
      assert want[k] == s[From(x, m, y, k)];
    }
  }

  /** The same with the back block, when it is not the longer one. */
  lemma {:induction false} BackShort<T>(s: seq<T>, t: seq<T>, x: nat, x': nat, m: nat, y: nat, want: seq<T>)
    requires x < x' <= m < y && x' - x == y - m && LeadsTo(s, x, m, y, want) && Swapped(s, t, x, m, y - m)
    ensures LeadsTo(t, x', m, y, want)
  {
    forall k: nat | k < |s|
      ensures want[k] == t[From(x', m, y, k)]
    {
      assert want[k] == s[From(x, m, y, k)];
    }
  }

  /** The loops of `exchange`: the blocks change places, each keeps its order, and nothing
      else moves. */
  method ExchangeBlocks<T>(a: array<T>, first: nat, last: nat, end: nat)
    requires first <= last <= end <= a.Length
    modifies a
    ensures a[..] == Exchanged(old(a[..]), first, last, end)
  {
    var bottom, middle, top := first, last, end;
    ghost var want := Exchanged(a[..], first, last, end);
    forall k: nat | k < a.Length
      ensures want[k] == a[From(bottom, middle, top, k)]
    {
      ExchangedAt(a[..], first, last, end, k);
    }
    while top > middle && middle > bottom
      invariant first <= bottom <= middle <= top <= end
      invariant LeadsTo(a[..], bottom, middle, top, want)
      decreases top - bottom
    {
      ghost var s := a[..];
      if top - middle > middle - bottom {
        var len := middle - bottom;
        SwapBlocks(a, bottom, top - len, len);
        ghost var top0 := top;
        top := top - len;
        FrontShort(s, a[..], bottom, middle, top0, top, want);
      } else {
        var len := top - middle;
        SwapBlocks(a, bottom, middle, len);
        ghost var bottom0 := bottom;
        bottom := bottom + len;
        BackShort(s, a[..], bottom0, bottom, middle, top, want);
      }
    }
    NothingLeft(a[..], bottom, middle, top, want);
  }

  lemma {:induction false} NothingLeft<T>(s: seq<T>, x: nat, m: nat, y: nat, want: seq<T>)
    requires LeadsTo(s, x, m, y, want) && (x == m || m == y)
    ensures s == want
  {
    forall k: nat | k < |s|
      ensures s[k] == want[k]
    {
      assert From(x, m, y, k) == k;
    }
  }
}
