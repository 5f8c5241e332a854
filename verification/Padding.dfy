/** find_padding of null_guard.py and cond_trap.py: room for a stub among zero words. */
module Padding {
  import opened Wrappers
  import opened Octets

  predicate ZeroWord(data: octets, i: nat) {
    i + 4 <= |data| && data[i] == 0 && data[i + 1] == 0 && data[i + 2] == 0 && data[i + 3] == 0
  }

  /** Bytes in a whole number of words, at least one, that cover want. */
  function Room(want: nat): (r: nat)
    ensures r % 4 == 0 && r >= 4 && want <= r && (want > 0 ==> r < want + 4)
    ensures r == 4 <==> want <= 4
  {
    if want == 0 then 4 else (want + 3) / 4 * 4
  }

  ghost predicate ZeroRun(data: octets, s: nat, n: nat) {
    s + n <= |data| && forall k :: s <= k < s + n ==> data[k] == 0
  }

  /** A zero run the scan could use: on the segment's word grid, each of its words
      beginning inside the segment. */
  ghost predicate Usable(data: octets, fileoff: nat, size: nat, want: nat, s: nat) {
    fileoff <= s && (s - fileoff) % 4 == 0 && s + Room(want) < fileoff + size + 4 && ZeroRun(data, s, Room(want))
  }

  function Distance(a: int, b: int): (d: nat)
    ensures d == a - b || d == b - a
  {
    if a < b then b - a else a - b
  }

  /** The usable runs the scan compares: the count starts anew at the segment's
      edge, after a word that is not zero, and after each such run. */
  ghost predicate Hit(data: octets, fileoff: nat, size: nat, want: nat, s: nat)
    decreases s
  {
    && Usable(data, fileoff, size, want, s)
    && (s == fileoff || !ZeroWord(data, s - 4)
       || (s >= fileoff + Room(want) && Hit(data, fileoff, size, want, s - Room(want))))
  }

  /** What find_padding returns: of the hits, the nearest, the lowest of several. */
  ghost predicate Chosen(data: octets, fileoff: nat, size: nat, want: nat, near: int, r: Option<nat>) {
    match r
    case None => forall s: nat :: !Hit(data, fileoff, size, want, s)
    case Some(best) => Hit(data, fileoff, size, want, best) && forall s: nat ::
      Hit(data, fileoff, size, want, s) ==> Better(best, s, near)
  }

  predicate Better(a: nat, b: nat, near: int) {
    Distance(a, near) < Distance(b, near) || (Distance(a, near) == Distance(b, near) && a <= b)
  }

  /** No usable run is nearer. */
  ghost predicate Nearest(data: octets, fileoff: nat, size: nat, want: nat, near: int, best: nat) {
    && Usable(data, fileoff, size, want, best)
    && forall s: nat :: Usable(data, fileoff, size, want, s) ==> Distance(best, near) <= Distance(s, near)
  }

  // ---- facts about runs ----

  lemma RunHasWord(data: octets, s: nat, n: nat, i: nat)
    requires ZeroRun(data, s, n) && s <= i && i + 4 <= s + n
    ensures ZeroWord(data, i)
  {
  }

  lemma UsableRun(data: octets, fileoff: nat, size: nat, want: nat, s: nat)
    requires Usable(data, fileoff, size, want, s)
    ensures ZeroRun(data, s, Room(want)) && fileoff <= s && (s - fileoff) % 4 == 0
      && s + Room(want) < fileoff + size + 4
  {
  }

  lemma IsUsable(data: octets, fileoff: nat, size: nat, want: nat, s: nat)
    requires fileoff <= s && (s - fileoff) % 4 == 0 && s + Room(want) < fileoff + size + 4
      && ZeroRun(data, s, Room(want))
    ensures Usable(data, fileoff, size, want, s)
  {
  }

  lemma HitIsUsable(data: octets, fileoff: nat, size: nat, want: nat, s: nat)
    requires Hit(data, fileoff, size, want, s)
    ensures Usable(data, fileoff, size, want, s)
  {
  }

  lemma Grows(data: octets, from: nat, i: nat)
    requires from <= i && (from == i || ZeroRun(data, from, i - from)) && ZeroWord(data, i)
    ensures ZeroRun(data, from, i + 4 - from)
  {
  }

  lemma EnoughIsRoom(run: nat, want: nat)
    requires run % 4 == 0 && run > 0
    ensures run >= want <==> run >= Room(want)
  {
  }

  lemma OnGrid(a: nat, b: nat, f: nat)
    requires f <= a < b && (a - f) % 4 == 0 && (b - f) % 4 == 0
    ensures a + 4 <= b && (b - a) % 4 == 0
  {
  }

  /** A word before which a usable run ends is not its own. */
  lemma ApartFromNonZero(data: octets, fileoff: nat, size: nat, want: nat, s: nat, t: nat)
    requires Usable(data, fileoff, size, want, s) && s < t && fileoff <= t && (t - fileoff) % 4 == 0
    requires t >= 4 && !ZeroWord(data, t - 4)
    ensures s + Room(want) <= t
  {
    hide Room, Usable, ZeroWord, ZeroRun;
    UsableRun(data, fileoff, size, want, s);
    OnGrid(s, t, fileoff);
    if t < s + Room(want) { RunHasWord(data, s, Room(want), t - 4); }
  }

  /** Hits do not overlap. */
  lemma {:induction false} HitsApart(data: octets, fileoff: nat, size: nat, want: nat, s: nat, t: nat)
    requires Hit(data, fileoff, size, want, s) && Hit(data, fileoff, size, want, t) && s < t
    ensures s + Room(want) <= t
    decreases s + t
  {
    hide Room, Usable, ZeroWord;
    UsableRun(data, fileoff, size, want, s);
    UsableRun(data, fileoff, size, want, t);
    if !ZeroWord(data, t - 4) {
      OnGrid(s, t, fileoff);
      ApartFromNonZero(data, fileoff, size, want, s, t);
    } else {
      var u := t - Room(want);
      if u < s {
        HitsApart(data, fileoff, size, want, u, s);
      } else if s < u {
        HitsApart(data, fileoff, size, want, s, u);
      }
    }
  }

  // ---- the scan ----

  /** What precedes the current run. */
  ghost predicate Begins(data: octets, fileoff: nat, size: nat, want: nat, from: nat) {
    || from == fileoff
    || (from >= fileoff + 4 && !ZeroWord(data, from - 4))
    || (from >= fileoff + Room(want) && Hit(data, fileoff, size, want, from - Room(want)))
  }

  /** Best so far, of the hits that end by i. */
  ghost predicate BestBy(data: octets, fileoff: nat, size: nat, want: nat, near: int, best: Option<nat>, i: nat) {
    && (best.Some? ==> Hit(data, fileoff, size, want, best.value) && best.value + Room(want) <= i)
    && forall s: nat ::
       Hit(data, fileoff, size, want, s) && s + Room(want) <= i ==> best.Some? && Better(best.value, s, near)
  }

  lemma BeginsHit(data: octets, fileoff: nat, size: nat, want: nat, from: nat)
    requires Begins(data, fileoff, size, want, from) && Usable(data, fileoff, size, want, from)
    ensures Hit(data, fileoff, size, want, from)
  {
    hide Usable, ZeroWord, Room;
  }

  /** A hit that ends with the word at i is the counted run, just complete. */
  lemma HitIsCounted(data: octets, fileoff: nat, size: nat, want: nat, from: nat, i: nat, s: nat)
    requires Hit(data, fileoff, size, want, s) && s + Room(want) == i + 4
    requires Begins(data, fileoff, size, want, from) && fileoff <= from <= i && (from - fileoff) % 4 == 0
    requires i - from < Room(want) && (i - from) % 4 == 0
    ensures s == from
  {
    hide Room, Usable, ZeroWord;
    UsableRun(data, fileoff, size, want, s);
    if s < from {
      if from >= fileoff + 4 && !ZeroWord(data, from - 4) {
        ApartFromNonZero(data, fileoff, size, want, s, from);
      } else if from >= fileoff + Room(want) {
        HitsApart(data, fileoff, size, want, from - Room(want), s);
      }
    } else if from < s {
      OnGrid(from, s, fileoff);
    }
  }

  lemma StartsBest(data: octets, fileoff: nat, size: nat, want: nat, near: int)
    ensures BestBy(data, fileoff, size, want, near, None, fileoff) && Begins(data, fileoff, size, want, fileoff)
  {
    hide Usable, ZeroWord;
    forall s: nat | Hit(data, fileoff, size, want, s)
      ensures s + Room(want) > fileoff
    {
      UsableRun(data, fileoff, size, want, s);
    }
  }

  /** No hit ends with the word at i. */
  lemma NoHitEnds(data: octets, fileoff: nat, size: nat, want: nat, near: int, best: Option<nat>, i: nat)
    requires BestBy(data, fileoff, size, want, near, best, i) && fileoff <= i && (i - fileoff) % 4 == 0
    requires forall s: nat :: Hit(data, fileoff, size, want, s) ==> s + Room(want) != i + 4
    ensures BestBy(data, fileoff, size, want, near, best, i + 4)
  {
    hide Hit, Room, Better;
    forall s: nat | Hit(data, fileoff, size, want, s) && s + Room(want) <= i + 4
      ensures best.Some? && Better(best.value, s, near)
    {
      HitOnGrid(data, fileoff, size, want, s, i);
    }
  }

  lemma HitOnGrid(data: octets, fileoff: nat, size: nat, want: nat, s: nat, i: nat)
    requires Hit(data, fileoff, size, want, s) && s + Room(want) <= i + 4 && fileoff <= i && (i - fileoff) % 4 == 0
    ensures s + Room(want) <= i || s + Room(want) == i + 4
  {
    hide Usable, ZeroWord, ZeroRun, Room;
    UsableRun(data, fileoff, size, want, s);
  }

  /** The counted run is the one hit that ends with the word at i. */
  lemma OneHitEnds(data: octets, fileoff: nat, size: nat, want: nat, near: int, was: Option<nat>, best: Option<nat>,
    from: nat, i: nat)
    requires BestBy(data, fileoff, size, want, near, was, i) && fileoff <= i && (i - fileoff) % 4 == 0
    requires Hit(data, fileoff, size, want, from) && from + Room(want) == i + 4
    requires forall s: nat :: Hit(data, fileoff, size, want, s) && s + Room(want) == i + 4 ==> s == from
    requires best == if was.None? || Distance(from, near) < Distance(was.value, near) then Some(from) else was
    ensures BestBy(data, fileoff, size, want, near, best, i + 4)
  {
    hide Hit, Room;
    forall s: nat | Hit(data, fileoff, size, want, s) && s + Room(want) <= i + 4 ensures Better(best.value, s, near) {
      HitOnGrid(data, fileoff, size, want, s, i);
    }
  }

  lemma AllSeen(data: octets, fileoff: nat, size: nat, want: nat, near: int, best: Option<nat>, i: nat)
    requires BestBy(data, fileoff, size, want, near, best, i) && fileoff + size <= i && (i - fileoff) % 4 == 0
    ensures Chosen(data, fileoff, size, want, near, best)
  {
    hide Hit, Room, Better;
    forall s: nat | Hit(data, fileoff, size, want, s)
      ensures s + Room(want) <= i
    {
      EndsInside(data, fileoff, size, want, s, i);
    }
  }

  lemma EndsInside(data: octets, fileoff: nat, size: nat, want: nat, s: nat, i: nat)
    requires Hit(data, fileoff, size, want, s) && fileoff + size <= i && (i - fileoff) % 4 == 0
    ensures s + Room(want) <= i
  {
    hide Usable, ZeroWord, ZeroRun, Room;
    UsableRun(data, fileoff, size, want, s);
  }

  /** The nearest of the hits. */
  method FindPadding(data: octets, fileoff: nat, size: nat, want: nat, near: int) returns (r: Option<nat>)
    ensures Chosen(data, fileoff, size, want, near, r)
  {
    hide Room, ZeroRun, ZeroWord, Distance, Begins, BestBy, Usable, Hit, Chosen;
    StartsBest(data, fileoff, size, want, near);
    var best: Option<nat> := None;
    var run: nat := 0;
    var i: nat := fileoff;
    while i < fileoff + size
      invariant fileoff <= i && (i - fileoff) % 4 == 0
      invariant run < Room(want) && run % 4 == 0 && run <= i - fileoff
      invariant run > 0 ==> ZeroRun(data, i - run, run)
      invariant Begins(data, fileoff, size, want, i - run)
      invariant BestBy(data, fileoff, size, want, near, best, i)
      decreases fileoff + size - i
    {
      ghost var from := i - run;
      forall s: nat | Hit(data, fileoff, size, want, s) && s + Room(want) == i + 4
        ensures s == from && ZeroWord(data, i)
      {
        HitIsCounted(data, fileoff, size, want, from, i, s);
        HitEndsInZero(data, fileoff, size, want, s, i);
      }
      if ZeroWord(data, i) {
        Grows(data, from, i);
        run := run + 4;
        EnoughIsRoom(run, want);
        if run >= want {
          var start := i + 4 - run;
          ghost var was := best;
          IsUsable(data, fileoff, size, want, start);
          BeginsHit(data, fileoff, size, want, start);
          if best.None? || Distance(start, near) < Distance(best.value, near) { best := Some(start); }
          OneHitEnds(data, fileoff, size, want, near, was, best, from, i);
          run := 0;
        } else {
          NoHitEnds(data, fileoff, size, want, near, best, i);
        }
      } else {
        NoHitEnds(data, fileoff, size, want, near, best, i);
        run := 0;
      }
      i := i + 4;
      StillBegins(data, fileoff, size, want, from, i, run);
    }
    AllSeen(data, fileoff, size, want, near, best, i);
    return best;
  }

  lemma HitEndsInZero(data: octets, fileoff: nat, size: nat, want: nat, s: nat, i: nat)
    requires Hit(data, fileoff, size, want, s) && s + Room(want) == i + 4
    ensures ZeroWord(data, i)
  {
    hide ZeroWord, ZeroRun, Room, Usable;
    UsableRun(data, fileoff, size, want, s);
    RunHasWord(data, s, Room(want), i);
  }

  lemma StillBegins(data: octets, fileoff: nat, size: nat, want: nat, from: nat, i: nat, run: nat)
    requires Begins(data, fileoff, size, want, from) && fileoff <= from < i
    requires
      || run == i - from
      || (run == 0 && i >= fileoff + 4 && !ZeroWord(data, i - 4))
      || (run == 0 && i == from + Room(want) && Hit(data, fileoff, size, want, from))
    ensures Begins(data, fileoff, size, want, i - run)
  {
    hide Hit, ZeroWord, Room;
  }

  // ---- what the choice promises ----

  /** Hits exist when usable runs do: the first usable run is one. */
  lemma {:induction false} FirstIsHit(data: octets, fileoff: nat, size: nat, want: nat, s: nat) returns (t: nat)
    requires Usable(data, fileoff, size, want, s)
    ensures Hit(data, fileoff, size, want, t) && t <= s
    decreases s
  {
    hide Room, ZeroWord;
    if s == fileoff || !ZeroWord(data, s - 4) {
      t := s;
    } else {
      OneEarlier(data, fileoff, size, want, s);
      t := FirstIsHit(data, fileoff, size, want, s - 4);
    }
  }

  lemma OneEarlier(data: octets, fileoff: nat, size: nat, want: nat, s: nat)
    requires Usable(data, fileoff, size, want, s) && s != fileoff && ZeroWord(data, s - 4)
    ensures Usable(data, fileoff, size, want, s - 4)
  {
    hide Room;
    OnGrid(fileoff, s, fileoff);
  }

  /** A run is found exactly when one is usable, and the one found is usable. */
  lemma ChosenFinds(data: octets, fileoff: nat, size: nat, want: nat, near: int, r: Option<nat>)
    requires Chosen(data, fileoff, size, want, near, r)
    ensures r.Some? ==> Usable(data, fileoff, size, want, r.value)
    ensures r.None? <==> forall s: nat :: !Usable(data, fileoff, size, want, s)
  {
    hide Usable, ZeroWord, Better, Room;
    if r.None? {
      forall s: nat ensures !Usable(data, fileoff, size, want, s) {
        if Usable(data, fileoff, size, want, s) { var t := FirstIsHit(data, fileoff, size, want, s); }
      }
    }
  }

  lemma ChosenIsUnique(data: octets, fileoff: nat, size: nat, want: nat, near: int, a: Option<nat>, b: Option<nat>)
    requires Chosen(data, fileoff, size, want, near, a) && Chosen(data, fileoff, size, want, near, b)
    ensures a == b
  {
    hide Hit;
  }

  /** Of the hits up to n, the best; so something is always chosen. */
  lemma {:induction false} SomethingIsBest(data: octets, fileoff: nat, size: nat, want: nat, near: int, n: nat)
    returns (r: Option<nat>)
    ensures r.Some? ==> Hit(data, fileoff, size, want, r.value)
    ensures forall s: nat :: s < n && Hit(data, fileoff, size, want, s) ==> r.Some? && Better(r.value, s, near)
  {
    hide Hit;
    if n == 0 { return None; }
    r := SomethingIsBest(data, fileoff, size, want, near, n - 1);
    if Hit(data, fileoff, size, want, n - 1) && (r.None? || !Better(r.value, n - 1, near)) { r := Some(n - 1); }
  }

  lemma SomethingIsChosen(data: octets, fileoff: nat, size: nat, want: nat, near: int) returns (r: Option<nat>)
    ensures Chosen(data, fileoff, size, want, near, r)
  {
    hide Usable, Better, Room, ZeroWord;
    r := SomethingIsBest(data, fileoff, size, want, near, fileoff + size + 4);
    forall s: nat | Hit(data, fileoff, size, want, s)
      ensures s < fileoff + size + 4
    {
      UsableRun(data, fileoff, size, want, s);
    }
  }

  /** No two usable runs overlap. */
  ghost predicate NoOverlap(data: octets, fileoff: nat, size: nat, want: nat) {
    forall s: nat, t: nat ::
      Usable(data, fileoff, size, want, s) && Usable(data, fileoff, size, want, t) && s < t ==> s + Room(want) <= t
  }

  /** A stretch of the segment's words, all zero, one more than the room wanted. */
  ghost predicate LongStretch(data: octets, fileoff: nat, size: nat, want: nat, s: nat) {
    fileoff <= s && (s - fileoff) % 4 == 0 && s + Room(want) < fileoff + size && ZeroRun(data, s, Room(want) + 4)
  }

  lemma StretchIsTwo(data: octets, fileoff: nat, size: nat, want: nat, s: nat)
    ensures LongStretch(data, fileoff, size, want, s)
      <==> Usable(data, fileoff, size, want, s) && Usable(data, fileoff, size, want, s + 4)
  {
    hide Room;
  }

  /** Where no usable runs overlap, each is a hit. */
  lemma ApartIsHit(data: octets, fileoff: nat, size: nat, want: nat, s: nat)
    requires NoOverlap(data, fileoff, size, want) && Usable(data, fileoff, size, want, s)
    ensures Hit(data, fileoff, size, want, s)
    decreases s
  {
    hide ZeroWord, Usable, Room;
    UsableRun(data, fileoff, size, want, s);
    if s != fileoff && ZeroWord(data, s - 4) {
      OnGrid(fileoff, s, fileoff);
      OneEarlier(data, fileoff, size, want, s);
      ApartIsHit(data, fileoff, size, want, s - 4);
    }
  }

  /** Beside a hit that is followed by one more zero word is a usable run the scan
      passes over. */
  lemma PassedOver(data: octets, fileoff: nat, size: nat, want: nat, s: nat)
    requires Hit(data, fileoff, size, want, s) && Usable(data, fileoff, size, want, s + 4) && Room(want) > 4
    ensures !Hit(data, fileoff, size, want, s + 4)
  {
    hide Usable, Room;
    if Hit(data, fileoff, size, want, s + 4) { HitsApart(data, fileoff, size, want, s, s + 4); }
  }

  /** The start of a long stretch is a hit with a usable run one word further on. */
  lemma {:induction false} StretchStart(data: octets, fileoff: nat, size: nat, want: nat, s: nat) returns (t: nat)
    requires LongStretch(data, fileoff, size, want, s)
    ensures Hit(data, fileoff, size, want, t) && LongStretch(data, fileoff, size, want, t)
    decreases s
  {
    hide Room, ZeroWord, Usable, LongStretch;
    t := s;
    StretchIsTwo(data, fileoff, size, want, s);
    UsableRun(data, fileoff, size, want, s);
    if s != fileoff && ZeroWord(data, s - 4) {
      OnGrid(fileoff, s, fileoff);
      OneEarlier(data, fileoff, size, want, s);
      StretchIsTwo(data, fileoff, size, want, s - 4);
      t := StretchStart(data, fileoff, size, want, s - 4);
    }
  }

  lemma OverlapIsLong(data: octets, fileoff: nat, size: nat, want: nat, s: nat, t: nat)
    requires Usable(data, fileoff, size, want, s) && Usable(data, fileoff, size, want, t) && s < t < s + Room(want)
    ensures LongStretch(data, fileoff, size, want, s)
  {
    hide Room;
    OnGrid(s, t, fileoff);
    StretchIsTwo(data, fileoff, size, want, s);
  }

  lemma OverlapExactly(data: octets, fileoff: nat, size: nat, want: nat)
    ensures NoOverlap(data, fileoff, size, want) <==>
      want <= 4 || forall s: nat :: !LongStretch(data, fileoff, size, want, s)
  {
    hide Usable, LongStretch, Room;
    if NoOverlap(data, fileoff, size, want) && want > 4 {
      forall s: nat ensures !LongStretch(data, fileoff, size, want, s) {
        StretchIsTwo(data, fileoff, size, want, s);
        assert s + Room(want) > s + 4;
      }
    }
    forall s: nat, t: nat | Usable(data, fileoff, size, want, s) && Usable(data, fileoff, size, want, t)
      && s < t < s + Room(want)
      ensures want > 4 && LongStretch(data, fileoff, size, want, s)
    {
      OverlapIsLong(data, fileoff, size, want, s, t);
      UsableRun(data, fileoff, size, want, s);
      UsableRun(data, fileoff, size, want, t);
      OnGrid(s, t, fileoff);
    }
  }

  /** Just past the start of a long stretch the scan's choice is not the nearest run. */
  lemma StretchMisses(data: octets, fileoff: nat, size: nat, want: nat, s: nat) returns (near: int, best: nat)
    requires LongStretch(data, fileoff, size, want, s) && want > 4
    ensures Chosen(data, fileoff, size, want, near, Some(best)) && !Nearest(data, fileoff, size, want, near, best)
  {
    hide Usable, Hit, Better, LongStretch;
    var t := StretchStart(data, fileoff, size, want, s);
    StretchIsTwo(data, fileoff, size, want, t);
    near := t + 4;
    var r := SomethingIsChosen(data, fileoff, size, want, near);
    ChosenFinds(data, fileoff, size, want, near, r);
    best := r.value;
    PassedOver(data, fileoff, size, want, t);
  }

  lemma ApartIsNearest(data: octets, fileoff: nat, size: nat, want: nat, near: int, best: nat)
    requires NoOverlap(data, fileoff, size, want) && Chosen(data, fileoff, size, want, near, Some(best))
    ensures Nearest(data, fileoff, size, want, near, best)
  {
    hide Usable, Hit, NoOverlap;
    HitIsUsable(data, fileoff, size, want, best);
    forall s: nat | Usable(data, fileoff, size, want, s) ensures Distance(best, near) <= Distance(s, near) {
      ApartIsHit(data, fileoff, size, want, s);
      assert Better(best, s, near);
    }
  }

  /** The run returned is a nearest usable one wherever the site is, if and only if the
      segment has no stretch of zero words longer than the room wanted (or one word
      is room enough). */
  lemma NearestExactly(data: octets, fileoff: nat, size: nat, want: nat)
    ensures (forall near: int, best: nat ::
        Chosen(data, fileoff, size, want, near, Some(best)) ==> Nearest(data, fileoff, size, want, near, best))
      <==> want <= 4 || forall s: nat :: !LongStretch(data, fileoff, size, want, s)
  {
    hide *;
    OverlapExactly(data, fileoff, size, want);
    if NoOverlap(data, fileoff, size, want) {
      forall near: int, best: nat | Chosen(data, fileoff, size, want, near, Some(best))
        ensures Nearest(data, fileoff, size, want, near, best)
      {
        ApartIsNearest(data, fileoff, size, want, near, best);
      }
    } else {
      var s: nat :| LongStretch(data, fileoff, size, want, s);
      var near, best := StretchMisses(data, fileoff, size, want, s);
    }
  }

  /** Forty zero bytes before the site, room for the 24 of the guard: the run at 0 is
      returned, the one at 16 is nearer. */
  lemma MissesTheNearest(data: octets, r: Option<nat>)
    requires data == Zeros(40) + [1, 0, 0, 0] && Chosen(data, 0, 44, 24, 40, r)
    ensures r == Some(0) && Usable(data, 0, 44, 24, 16) && Distance(16, 40) < Distance(0, 40)
  {
    assert Room(24) == 24;
    assert Usable(data, 0, 44, 24, 0) && Usable(data, 0, 44, 24, 16) && Hit(data, 0, 44, 24, 0);
    forall s: nat | Hit(data, 0, 44, 24, s) ensures s == 0 {
      UsableRun(data, 0, 44, 24, s);
      assert data[40] == 1;
    }
  }

  // ---- inside the segment ----

  /** The segment's size in whole words. */
  function Words(size: nat): (w: nat)
    ensures w % 4 == 0 && size <= w < size + 4
  {
    (size + 3) / 4 * 4
  }

  predicate Fits(size: nat, want: nat) { size % 4 == 0 || Words(size) < Room(want) }

  lemma StaysInside(data: octets, fileoff: nat, size: nat, want: nat, s: nat)
    requires Usable(data, fileoff, size, want, s) && Fits(size, want)
    ensures s + Room(want) <= fileoff + size
  {
    hide ZeroRun, Room, Words;
  }

  lemma ZeroAt(data: octets, s: nat, n: nat)
    requires ZeroRun(data, s, n) && n > 0
    ensures data[s] == 0
  {
  }

  /** A segment with zeros only in its last words, the last of which sticks out. */
  function Tail(fileoff: nat, size: nat, want: nat): octets
    requires !Fits(size, want)
  {
    seq(fileoff + Words(size) - Room(want), _ => 1) + Zeros(Room(want))
  }

  lemma TailSticksOut(fileoff: nat, size: nat, want: nat)
    requires !Fits(size, want)
    ensures Words(size) >= Room(want)
    ensures
      var data, s := Tail(fileoff, size, want), fileoff + Words(size) - Room(want);
      && s + Room(want) > fileoff + size && Usable(data, fileoff, size, want, s)
      && forall near: int :: Chosen(data, fileoff, size, want, near, Some(s))
  {
    hide Room, Words;
    var data, s := Tail(fileoff, size, want), fileoff + Words(size) - Room(want);
    assert Usable(data, fileoff, size, want, s);
    if s > fileoff { assert data[s - 4] == 1; }
    assert Hit(data, fileoff, size, want, s);
    forall t: nat | Hit(data, fileoff, size, want, t) ensures t == s {
      UsableRun(data, fileoff, size, want, t);
      ZeroAt(data, t, Room(want));
    }
    hide Hit;
  }

  /** Whatever the data, usable runs and the run returned lie inside the segment if and
      only if the segment is whole words or too short for any run. */
  lemma InsideExactly(fileoff: nat, size: nat, want: nat)
    ensures Fits(size, want) <==>
      forall data: octets, s: nat :: Usable(data, fileoff, size, want, s) ==> s + Room(want) <= fileoff + size
    ensures Fits(size, want) <==>
      forall data: octets, near: int, s: nat ::
        Chosen(data, fileoff, size, want, near, Some(s)) ==> s + Room(want) <= fileoff + size
  {
    hide *;
    if Fits(size, want) {
      forall data: octets, s: nat | Usable(data, fileoff, size, want, s) ensures s + Room(want) <= fileoff + size {
        StaysInside(data, fileoff, size, want, s);
      }
      forall data: octets, near: int, s: nat | Chosen(data, fileoff, size, want, near, Some(s))
        ensures s + Room(want) <= fileoff + size
      {
        ChosenFinds(data, fileoff, size, want, near, Some(s));
        StaysInside(data, fileoff, size, want, s);
      }
    } else {
      TailSticksOut(fileoff, size, want);
      var s: nat := fileoff + Words(size) - Room(want);
      assert Chosen(Tail(fileoff, size, want), fileoff, size, want, 0, Some(s));
    }
  }
}
