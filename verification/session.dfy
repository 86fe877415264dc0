/**
 The index logic of `createPlaylist`: a current index into the resolved
 paths, changed only by `set` (the inner `playlist` function), `next` and
 `prev`. JavaScript numbers are modelled as integers plus NaN, which is what
 the index arithmetic can produce: `x % 0` is NaN, and NaN passes the bounds
 guard because every comparison with NaN is false.
 */
module PlaylistSession {

  /** A JavaScript number as far as the index logic needs one. */
  datatype Num = Int(i: int) | NaN

  /** Integer quotient rounded toward zero, for a positive divisor. */
  function TruncQuot(a: int, n: int): int
    requires 0 < n
    decreases if a < 0 then -a else a
  {
    if -n < a < n then 0
    else if n <= a then TruncQuot(a - n, n) + 1
    else TruncQuot(a + n, n) - 1
  }

  /** ECMAScript `%` (Number::remainder) for a positive integral divisor: the
      remainder left by the quotient rounded toward zero, so it takes the sign
      of the dividend, unlike Dafny's `%`. */
  function JsRem(a: int, n: int): (r: int)
    requires 0 < n
    ensures a == TruncQuot(a, n) * n + r
    ensures 0 <= a ==> 0 <= r < n
    ensures a < 0 ==> -n < r <= 0
    decreases if a < 0 then -a else a
  {
    if -n < a < n then a
    else if n <= a then
      var q := TruncQuot(a - n, n);
      assert (q + 1) * n == q * n + n;
      JsRem(a - n, n)
    else
      var q := TruncQuot(a + n, n);
      assert (q - 1) * n == q * n - n;
      JsRem(a + n, n)
  }

  /** Within one divisor of zero the truncated remainder is the dividend
      itself, and a divisor divides itself. */
  lemma JsRemNearZero(a: int, n: int)
    requires 0 < n
    ensures -n < a < n ==> JsRem(a, n) == a
    ensures JsRem(n, n) == 0
  {
    assert JsRem(n, n) == JsRem(0, n);
  }

  /** `x + d` on numbers: NaN absorbs. */
  function Add(x: Num, d: int): (r: Num)
    ensures r.NaN? <==> x.NaN?
    ensures r.Int? ==> r.i - x.i == d
  {
    if x.NaN? then NaN else Int(x.i + d)
  }

  /** `x % n` on numbers, with `n` a sequence length: NaN when `n` is 0. */
  function Rem(x: Num, n: nat): (r: Num)
    ensures r.Int? <==> x.Int? && n != 0
  {
    if x.NaN? || n == 0 then NaN else Int(JsRem(x.i, n))
  }

  /** The paths being played and `currentIndex`. */
  datatype Session = Session(paths: seq<string>, current: Num)

  /** What a call of `playlist(index)` returns, and the session after it. */
  datatype SetResult = SetResult(accepted: bool, session: Session)

  /** `currentIndex` designates one of the paths. */
  predicate Valid(s: Session)
  {
    s.current.Int? && 0 <= s.current.i < |s.paths|
  }

  /** `createPlaylist(paths)`: the index starts at 0. */
  function CreatePlaylist(paths: seq<string>): (s: Session)
    ensures s.paths == paths
    ensures s.current == Int(0)
    ensures Valid(s) <==> 0 < |paths|
  {
    Session(paths, Int(0))
  }

  /** `playlist(index)`, exposed as `set`: rejects an index below 0 or at or
      past the end; otherwise makes it current (and starts playing it). */
  function Set(s: Session, index: Num): (o: SetResult)
    ensures o.session.paths == s.paths
    ensures !o.accepted ==> o.session == s
    ensures o.accepted ==> o.session.current == index
    ensures index.Int? ==> (o.accepted <==> 0 <= index.i < |s.paths|)
    ensures index.NaN? ==> o.accepted
  {
    if index.Int? && (index.i < 0 || index.i >= |s.paths|) then SetResult(false, s)
    else SetResult(true, s.(current := index))
  }

  /** `move(delta)`: plays the index (current + delta) modulo the number of
      paths, with JavaScript's truncating `%`. The result records whether the
      inner `playlist` call accepted the index. */
  function Move(s: Session, delta: int): (o: SetResult)
    ensures o.session.paths == s.paths
    ensures Valid(s) ==> Valid(o.session)
  {
    Set(s, Rem(Add(s.current, delta), |s.paths|))
  }

  /** `next`: a move by one position forward. */
  function Next(s: Session): (o: SetResult)
    ensures o.session.paths == s.paths
    ensures Valid(s) ==> o.accepted && Valid(o.session)
  {
    Move(s, 1)
  }

  /** `prev`: a move by one position back. */
  function Prev(s: Session): (o: SetResult)
    ensures o.session.paths == s.paths
    ensures Valid(s) ==> Valid(o.session)
  {
    Move(s, -1)
  }

  /** From an in-range index, `next` and `prev` stay in range, and so does
      `set` unless it accepts NaN. */
  lemma ValidIsInvariant(s: Session, index: Num)
    requires Valid(s)
    ensures Valid(Set(s, index).session) <==> index.Int? || !Set(s, index).accepted
    ensures Valid(Next(s).session) && Valid(Prev(s).session)
  {
    JsRemNearZero(s.current.i + 1, |s.paths|);
    JsRemNearZero(s.current.i - 1, |s.paths|);
  }

  /** `next` advances by one, and from the last index wraps round to 0. */
  lemma NextAdvancesOrWraps(s: Session)
    requires Valid(s)
    ensures Next(s).accepted
    ensures s.current.i < |s.paths| - 1 ==> Next(s).session.current == Int(s.current.i + 1)
    ensures s.current.i == |s.paths| - 1 ==> Next(s).session.current == Int(0)
  {
    JsRemNearZero(s.current.i + 1, |s.paths|);
  }

  /** `prev` steps back by one; from index 0 the remainder is -1, which the
      guard rejects, except for a single path where `-1 % 1` is (minus) zero
      and the same path is played again. Either way the index stays 0. */
  lemma PrevStepsBackOrStays(s: Session)
    requires Valid(s)
    ensures 0 < s.current.i ==> Prev(s).accepted && Prev(s).session.current == Int(s.current.i - 1)
    ensures s.current.i == 0 ==> Prev(s).session == s
    ensures s.current.i == 0 ==> (Prev(s).accepted <==> |s.paths| == 1)
  {
    JsRemNearZero(s.current.i - 1, |s.paths|);
  }

  /** `prev` undoes `next` unless `next` wrapped, and `next` undoes `prev`
      unless `prev` was stuck at 0. */
  lemma NextPrevInverse(s: Session)
    requires Valid(s)
    ensures s.current.i < |s.paths| - 1 ==> Prev(Next(s).session).session == s
    ensures 0 < s.current.i ==> Next(Prev(s).session).session == s
  {
    if s.current.i < |s.paths| - 1 {
      NextAdvancesOrWraps(s);
      PrevStepsBackOrStays(Next(s).session);
    }
    if 0 < s.current.i {
      PrevStepsBackOrStays(s);
      NextAdvancesOrWraps(Prev(s).session);
    }
  }

  /** On an empty playlist the guard rejects `set(0)`, but `next` and `prev`
      compute `x % 0`, which is NaN, and NaN passes the guard: the index
      becomes NaN and stays NaN. */
  lemma EmptyPlaylistIndexBecomesNaN(delta: int)
    ensures !Set(CreatePlaylist([]), Int(0)).accepted
    ensures Move(CreatePlaylist([]), delta).accepted
    ensures Move(CreatePlaylist([]), delta).session.current == NaN
    ensures Move(Move(CreatePlaylist([]), delta).session, delta).session.current == NaN
  {
  }
}
