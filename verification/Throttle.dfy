/** `throttle` of include/http_auth.hpp: a fixed-window limiter whose counter lives as text in a
    cache with expiry. */
module Throttle {
  import opened Wrappers
  import opened Cache
  import opened Numbers
  import Strings

  const SECOND: int := 1_000_000_000

  /** One request of one client: the clock when it is seen, when the counter is read and when it
      is put back, in nanoseconds. */
  datatype Request = Request(key: string, seen: nat, got: nat, kept: nat)

  datatype Limits = Limits(max: int, window: int)

  datatype Answer = Admitted | Refused(retryAfter: int)

  /** The counter of a window and the second the window began. */
  datatype Slot = Slot(count: int, start: int)

  function Seconds(t: nat): int {
    t / SECOND
  }

  function SlotText(s: Slot): string {
    IntText(s.count) + ("|" + IntText(s.start))
  }

  /** The slot a cached text holds; a text without a separator or with a bad number starts anew. */
  function SlotOf(text: Option<string>, now: int): Slot {
    if text.None? then Slot(0, now)
    else
      var sep := Strings.Find(text.value, "|", 0);
      if sep.None? then Slot(0, now)
      else
        var count := ParseInt(text.value[..sep.value], INT_MIN, INT_MAX);
        var start := ParseInt(text.value[sep.value + 1..], INT64_MIN, INT64_MAX);
        if count.None? || start.None? then Slot(0, now) else Slot(count.value, start.value)
  }

  /** The slot after counting a request at second `now`. */
  function Counted(s: Slot, now: int, window: int): Slot {
    if now - s.start >= window then Slot(1, now) else Slot(s.count + 1, s.start)
  }

  function AnswerFor(s: Slot, now: int, lim: Limits): Answer {
    if s.count <= lim.max then Admitted
    else
      var retry := s.start + lim.window - now;
      Refused(if retry > 0 then retry else lim.window)
  }

  /** The slot a request leaves and the items of the cache afterwards. */
  function SlotAfter(items: Items, r: Request, lim: Limits): Slot {
    Counted(SlotOf(Live(items, r.key, r.got), Seconds(r.seen)), Seconds(r.seen), lim.window)
  }

  function ItemsAfter(items: Items, r: Request, lim: Limits): Items {
    Purged(items, r.key, r.got)
      [r.key := Entry(SlotText(SlotAfter(items, r, lim)), Some(r.kept + 2 * lim.window * SECOND))]
  }

  /** `throttle` on one request. */
  method Handle(cache: ArrayCache, r: Request, lim: Limits) returns (a: Answer)
    modifies cache
    ensures cache.items == ItemsAfter(old(cache.items), r, lim)
    ensures a == AnswerFor(SlotAfter(old(cache.items), r, lim), Seconds(r.seen), lim)
  {
    hide IntText, ParseInt, Strings.Find;
    var now := r.seen / SECOND;
    var start, count := now, 0;
    var current := cache.Get(r.key, r.got);
    if current.Some? {
      var sep := Strings.Find(current.value, "|", 0);
      if sep.Some? {
        var c := ParseInt(current.value[..sep.value], INT_MIN, INT_MAX);
        if c.Some? {
          var st := ParseInt(current.value[sep.value + 1..], INT64_MIN, INT64_MAX);
          if st.Some? { count, start := c.value, st.value; }
        }
      }
    }
    if now - start >= lim.window { count, start := 0, now; }
    count := count + 1;
    cache.PutFor(r.key, IntText(count) + ("|" + IntText(start)), 2 * lim.window * SECOND, r.kept);
    if count > lim.max {
      var retry := start + lim.window - now;
      return Refused(if retry > 0 then retry else lim.window);
    }
    return Admitted;
  }

  // ---- the window counter, without a cache ----

  /** The slots that counting requests at these seconds goes through, from no slot at all. */
  function SlotAt(times: seq<int>, window: int): Slot
    requires times != []
  {
    var now := times[|times| - 1];
    if |times| == 1 then Slot(1, now) else Counted(SlotAt(times[..|times| - 1], window), now, window)
  }

  predicate NonDecreasing(times: seq<int>) {
    forall i, j :: 0 <= i <= j < |times| ==> times[i] <= times[j]
  }

  lemma {:induction false} SlotBounds(times: seq<int>, window: int)
    requires times != [] && window > 0 && NonDecreasing(times)
    ensures var s := SlotAt(times, window);
      1 <= s.count <= |times| && s.start in times && s.start <= times[|times| - 1] < s.start + window
  {
    var n := |times|;
    if n > 1 {
      SlotBounds(times[..n - 1], window);
      assert times[n - 2] <= times[n - 1];
    }
  }

  /** How many requests of a run are admitted at a second in `lo..hi`. */
  function AdmittedIn(times: seq<int>, lim: Limits, lo: int, hi: int): nat {
    if times == [] then 0
    else
      var now := times[|times| - 1];
      AdmittedIn(times[..|times| - 1], lim, lo, hi)
      + if lo <= now < hi && SlotAt(times, lim.window).count <= lim.max then 1 else 0
  }

  /** How many requests of a run are admitted in the window that began at `start`. */
  function AdmittedBy(times: seq<int>, lim: Limits, start: int): nat {
    if times == [] then 0
    else
      AdmittedBy(times[..|times| - 1], lim, start)
      + if SlotAt(times, lim.window).start == start && SlotAt(times, lim.window).count <= lim.max then 1 else 0
  }

  lemma {:induction false} AdmittedByNow(times: seq<int>, lim: Limits, start: int)
    requires times != [] && lim.window > 0 && lim.max >= 0 && NonDecreasing(times)
    ensures AdmittedBy(times, lim, start) <= lim.max
    ensures var s := SlotAt(times, lim.window);
      if s.start == start then AdmittedBy(times, lim, start) == Min(s.count, lim.max)
      else start > s.start ==> AdmittedBy(times, lim, start) == 0
  {
    var n := |times|;
    if n > 1 {
      AdmittedByNow(times[..n - 1], lim, start);
      SlotBounds(times[..n - 1], lim.window);
      assert times[n - 2] <= times[n - 1];
    } else {
      assert times[..0] == [];
    }
  }

  /** Every window admits its first `max` requests and no more. */
  lemma WindowAdmits(times: seq<int>, lim: Limits)
    requires times != [] && lim.window > 0 && lim.max >= 0 && NonDecreasing(times)
    ensures forall start :: AdmittedBy(times, lim, start) <= lim.max
    ensures var s := SlotAt(times, lim.window); AdmittedBy(times, lim, s.start) == Min(s.count, lim.max)
  {
    forall start ensures AdmittedBy(times, lim, start) <= lim.max {
      AdmittedByNow(times, lim, start);
    }
    AdmittedByNow(times, lim, SlotAt(times, lim.window).start);
  }

  lemma {:induction false} NoneBefore(times: seq<int>, lim: Limits, lo: int, hi: int)
    requires NonDecreasing(times) && (times == [] || times[|times| - 1] < lo)
    ensures AdmittedIn(times, lim, lo, hi) == 0
  {
    if times != [] { NoneBefore(times[..|times| - 1], lim, lo, hi); }
  }

  /** How many requests the interval from `lo` on can have admitted by second `now`: the window
      that was open at `lo` spent at least its first admission before it. */
  function Allowance(s: Slot, now: int, lim: Limits, lo: int): int {
    if now < lo then 0
    else if now >= lo + lim.window then 2 * lim.max - 1
    else if s.start < lo then Min(s.count, lim.max) - 1
    else lim.max - 1 + Min(s.count, lim.max)
  }

  lemma {:induction false} AdmittedUpTo(times: seq<int>, lim: Limits, lo: int)
    requires times != [] && lim.window > 0 && lim.max >= 1 && NonDecreasing(times)
    ensures AdmittedIn(times, lim, lo, lo + lim.window) <= Allowance(SlotAt(times, lim.window), times[|times| - 1], lim, lo)
  {
    var n := |times|;
    SlotBounds(times, lim.window);
    if times[n - 1] < lo {
      NoneBefore(times, lim, lo, lo + lim.window);
    } else if n > 1 {
      AdmittedUpTo(times[..n - 1], lim, lo);
      SlotBounds(times[..n - 1], lim.window);
      assert times[n - 2] <= times[n - 1];
    } else {
      assert times[..0] == [];
    }
  }

  /** The most requests `window` seconds can see admitted. */
  function Most(lim: Limits): int {
    if lim.window == 1 then lim.max else 2 * lim.max - 1
  }

  /** A window of one second is one second's requests. */
  lemma {:induction false} OneSecond(times: seq<int>, lim: Limits, lo: int)
    requires lim.window == 1 && NonDecreasing(times)
    ensures AdmittedIn(times, lim, lo, lo + 1) == AdmittedBy(times, lim, lo)
  {
    if times != [] {
      OneSecond(times[..|times| - 1], lim, lo);
      SlotBounds(times, lim.window);
    }
  }

  /** In any `window` seconds, over any run of requests, at most `Most` are admitted. */
  lemma IntervalAdmits(times: seq<int>, lim: Limits, lo: int)
    requires lim.window > 0 && lim.max >= 1 && NonDecreasing(times)
    ensures AdmittedIn(times, lim, lo, lo + lim.window) <= Most(lim)
  {
    if times != [] {
      AdmittedUpTo(times, lim, lo);
      SlotBounds(times, lim.window);
      if lim.window == 1 {
        OneSecond(times, lim, lo);
        WindowAdmits(times, lim);
      }
    }
  }

  function Times(k: nat, now: int): seq<int> {
    seq(k, _ => now)
  }

  /** Requests that repeat within an open window are counted on, and admitted up to `max`. */
  lemma {:induction false} Repeats(base: seq<int>, k: nat, now: int, lim: Limits, lo: int, hi: int)
    requires base != [] && now - SlotAt(base, lim.window).start < lim.window
    ensures var s := SlotAt(base, lim.window);
      && SlotAt(base + Times(k, now), lim.window) == Slot(s.count + k, s.start)
      && AdmittedIn(base + Times(k, now), lim, lo, hi) == AdmittedIn(base, lim, lo, hi)
        + if lo <= now < hi then Min(s.count + k, lim.max) - Min(s.count, lim.max) else 0
  {
    if k == 0 {
      assert base + Times(0, now) == base;
    } else {
      Repeats(base, k - 1, now, lim, lo, hi);
      var all := base + Times(k, now);
      assert all[..|all| - 1] == base + Times(k - 1, now);
    }
  }

  lemma FirstTime(now: int, lim: Limits, lo: int, hi: int)
    requires lim.max >= 1
    ensures SlotAt([now], lim.window) == Slot(1, now)
    ensures AdmittedIn([now], lim, lo, hi) == if lo <= now < hi then 1 else 0
  {
    assert [now][..0] == [];
  }

  /** One request at the end of a window's life opens the next. */
  lemma Reopens(base: seq<int>, now: int, lim: Limits, lo: int, hi: int)
    requires base != [] && now - SlotAt(base, lim.window).start >= lim.window && lim.max >= 1
    ensures SlotAt(base + [now], lim.window) == Slot(1, now)
    ensures AdmittedIn(base + [now], lim, lo, hi) == AdmittedIn(base, lim, lo, hi) + if lo <= now < hi then 1 else 0
  {
    assert (base + [now])[..|base|] == base;
  }

  /** The bound is reached, whatever the limits: one request opens a window, the rest of its
      `max` come in its last second, and `max` more in the second after. */
  lemma MostIsReached(lim: Limits) returns (times: seq<int>, lo: int)
    requires lim.window > 0 && lim.max >= 1
    ensures NonDecreasing(times) && AdmittedIn(times, lim, lo, lo + lim.window) == Most(lim)
  {
    hide SlotAt, AdmittedIn, NonDecreasing;
    var w, k: nat := lim.window, lim.max - 1;
    if w == 1 {
      lo := 0;
      FirstTime(0, lim, lo, lo + w);
      Repeats([0], k, 0, lim, lo, lo + w);
      times := [0] + Times(k, 0);
      StepsUp([0], k, 0);
    } else {
      lo := w - 1;
      FirstTime(0, lim, lo, lo + w);
      Repeats([0], k, w - 1, lim, lo, lo + w);
      var full := [0] + Times(k, w - 1);
      StepsUp([0], k, w - 1);
      Reopens(full, w, lim, lo, lo + w);
      Repeats(full + [w], k, w, lim, lo, lo + w);
      times := full + [w] + Times(k, w);
      StepsUp(full, 1, w);
      assert Times(1, w) == [w];
      StepsUp(full + [w], k, w);
    }
  }

  lemma StepsUp(base: seq<int>, k: nat, now: int)
    requires (base == [0] || NonDecreasing(base)) && base != [] && base[|base| - 1] <= now
    ensures NonDecreasing(base + Times(k, now))
  {}

  /** However hard a client hammers, a request at least `window` seconds after its window began is
      admitted; and a refused one is told a wait, at most `window`, after which that is so. */
  lemma NeverLockedOut(times: seq<int>, now: int, lim: Limits)
    requires times != [] && lim.window > 0 && lim.max >= 1 && NonDecreasing(times + [now])
    ensures now >= SlotAt(times, lim.window).start + lim.window
      ==> AnswerFor(SlotAt(times + [now], lim.window), now, lim) == Admitted
    ensures var a := AnswerFor(SlotAt(times, lim.window), times[|times| - 1], lim);
      a.Refused? ==> 1 <= a.retryAfter <= lim.window
    ensures var last, a := times[|times| - 1], AnswerFor(SlotAt(times, lim.window), times[|times| - 1], lim);
      a.Refused? && now >= last + a.retryAfter ==> AnswerFor(SlotAt(times + [now], lim.window), now, lim) == Admitted
  {
    assert (times + [now])[..|times|] == times;
    assert NonDecreasing(times) by {
      assert forall i :: 0 <= i < |times| ==> times[i] == (times + [now])[i];
    }
    SlotBounds(times, lim.window);
  }

  /** The wait a refused client is told is the least one: its next request is admitted if and only if
      that many seconds have passed. */
  lemma WaitIsLeast(times: seq<int>, now: int, lim: Limits)
    requires times != [] && lim.window > 0 && lim.max >= 1 && NonDecreasing(times + [now])
    ensures var last, a := times[|times| - 1], AnswerFor(SlotAt(times, lim.window), times[|times| - 1], lim);
      a.Refused? ==> (AnswerFor(SlotAt(times + [now], lim.window), now, lim) == Admitted <==> now >= last + a.retryAfter)
  {
    assert (times + [now])[..|times|] == times;
    assert NonDecreasing(times) by {
      assert forall i :: 0 <= i < |times| ==> times[i] == (times + [now])[i];
    }
    SlotBounds(times, lim.window);
  }

  // ---- the cache holds the window counter ----

  predicate Ordered(rs: seq<Request>) {
    && (forall i :: 0 <= i < |rs| ==> rs[i].seen <= rs[i].got <= rs[i].kept <= INT64_MAX)
    && (forall i, j :: 0 <= i < j < |rs| ==> rs[i].kept <= rs[j].seen)
  }

  /** The counter is read at most `delay` nanoseconds after the request is seen. */
  predicate Prompt(rs: seq<Request>, delay: int) {
    forall r <- rs :: r.got - r.seen <= delay
  }

  /** The cache after serving requests of any clients, from an empty one. */
  function CacheAfter(rs: seq<Request>, lim: Limits): Items {
    if rs == [] then map[] else ItemsAfter(CacheAfter(rs[..|rs| - 1], lim), rs[|rs| - 1], lim)
  }

  /** The seconds at which one client's requests were seen. */
  function TimesOf(rs: seq<Request>, key: string): seq<int> {
    if rs == [] then []
    else TimesOf(rs[..|rs| - 1], key) + if rs[|rs| - 1].key == key then [Seconds(rs[|rs| - 1].seen)] else []
  }

  lemma SlotTextReadsBack(s: Slot, now: int)
    requires INT_MIN <= s.count <= INT_MAX && INT64_MIN <= s.start <= INT64_MAX
    ensures SlotOf(Some(SlotText(s)), now) == s
  {
    hide IntText, ParseInt, Strings.Find;
    var a, b := IntText(s.count), IntText(s.start);
    NoBar(s.count);
    BarAt(a, b);
    ParseIntOfText(s.count, "", INT_MIN, INT_MAX);
    ParseIntOfText(s.start, "", INT64_MIN, INT64_MAX);
    assert a + "" == a && b + "" == b;
    assert (a + ("|" + b))[..|a|] == a && (a + ("|" + b))[|a| + 1..] == b;
    assert SlotText(s) == a + ("|" + b);
  }

  /** A counter that is missing, has no separator, or has a side that is no number of its width
      starts anew. */
  lemma BrokenTextStartsAnew(count: string, start: string, text: string, now: int)
    ensures SlotOf(None, now) == Slot(0, now)
    ensures '|' !in text ==> SlotOf(Some(text), now) == Slot(0, now)
    ensures '|' !in count && (ParseInt(count, INT_MIN, INT_MAX).None? || ParseInt(start, INT64_MIN, INT64_MAX).None?)
      ==> SlotOf(Some(count + ("|" + start)), now) == Slot(0, now)
  {
    hide ParseInt, Strings.Find;
    var s := count + ("|" + start);
    if '|' !in text {
      forall j: nat ensures !Strings.At(text, j, "|") {
        if j < |text| { assert text[j] in text; }
        Strings.NotAt(text, j, "|", 0);
      }
    }
    if '|' !in count {
      BarAt(count, start);
      assert s[..|count|] == count && s[|count| + 1..] == start;
    }
  }

  lemma NoBar(n: int)
    ensures '|' !in IntText(n)
  {
    var d := NatText(if n < 0 then -n else n);
    assert forall k :: 0 <= k < |d| ==> IsDigit(d[k]);
  }

  lemma BarAt(a: string, b: string)
    requires '|' !in a
    ensures Strings.Find(a + ("|" + b), "|", 0) == Some(|a|)
  {
    var s := a + ("|" + b);
    assert s[|a|..|a| + 1] == "|";
    forall j | 0 <= j < |a| ensures !Strings.At(s, j, "|") {
      assert s[j] in a;
      Strings.NotAt(s, j, "|", 0);
    }
    Strings.FindAt(s, "|", 0, |a|);
  }

  /** The last time a client's counter was put back. */
  function KeptAt(rs: seq<Request>, key: string): nat {
    if rs == [] then 0 else if rs[|rs| - 1].key == key then rs[|rs| - 1].kept else KeptAt(rs[..|rs| - 1], key)
  }

  lemma {:induction false} KeptBounds(rs: seq<Request>, key: string, bound: nat)
    requires forall r <- rs :: r.kept <= bound
    ensures KeptAt(rs, key) <= bound
  {
    if rs != [] {
      assert rs[|rs| - 1] in rs;
      KeptBounds(rs[..|rs| - 1], key, bound);
    }
  }

  lemma KeptBeforeLast(rs: seq<Request>, key: string)
    requires rs != [] && Ordered(rs)
    ensures Ordered(rs[..|rs| - 1]) && KeptAt(rs[..|rs| - 1], key) <= rs[|rs| - 1].seen <= rs[|rs| - 1].kept <= INT64_MAX
  {
    hide KeptAt;
    KeptBounds(rs[..|rs| - 1], key, rs[|rs| - 1].seen);
  }

  lemma {:induction false} TimesBounds(rs: seq<Request>, key: string)
    requires Ordered(rs)
    ensures NonDecreasing(TimesOf(rs, key)) && |TimesOf(rs, key)| <= |rs|
    ensures forall t <- TimesOf(rs, key) :: 0 <= t && t * SECOND <= KeptAt(rs, key)
    ensures KeptAt(rs, key) <= INT64_MAX
  {
    hide Ordered;
    if rs != [] {
      var init, r := rs[..|rs| - 1], rs[|rs| - 1];
      KeptBeforeLast(rs, key);
      TimesBounds(init, key);
      if r.key == key {
        forall t <- TimesOf(init, key) ensures t <= Seconds(r.seen) {}
        AppendedNonDecreasing(TimesOf(init, key), Seconds(r.seen));
      }
    }
  }

  lemma AppendedNonDecreasing(times: seq<int>, now: int)
    requires NonDecreasing(times) && forall t <- times :: t <= now
    ensures NonDecreasing(times + [now])
  {
    forall i | 0 <= i < |times| ensures times[i] <= now {
      assert times[i] in times;
    }
  }

  lemma OrderedInit(rs: seq<Request>, delay: int)
    requires rs != [] && Ordered(rs) && Prompt(rs, delay)
    ensures Ordered(rs[..|rs| - 1]) && Prompt(rs[..|rs| - 1], delay)
    ensures rs[|rs| - 1].seen <= rs[|rs| - 1].got <= rs[|rs| - 1].kept <= INT64_MAX
    ensures rs[|rs| - 1].got - rs[|rs| - 1].seen <= delay
  {
    assert rs[|rs| - 1] in rs;
  }

  /** A counter that has expired belongs to a window that is over. */
  lemma ExpiredIsOver(last: int, kept: nat, seen: nat, got: nat, window: int)
    requires last * SECOND <= kept && got - seen <= window * SECOND && got >= kept + 2 * window * SECOND
    ensures Seconds(seen) >= last + window
  {
    assert seen >= (last + window) * SECOND;
  }

  ghost predicate Holds(items: Items, rs: seq<Request>, lim: Limits, key: string) {
    if TimesOf(rs, key) == [] then key !in items
    else key in items && items[key] == CounterEntry(rs, lim, key)
  }

  /** The entry that holds the window counter of one client's requests. */
  function CounterEntry(rs: seq<Request>, lim: Limits, key: string): Entry
    requires TimesOf(rs, key) != []
  {
    Entry(SlotText(SlotAt(TimesOf(rs, key), lim.window)), Some(KeptAt(rs, key) + 2 * lim.window * SECOND))
  }

  /** Every client's counter in the cache is the counter of its own requests. */
  lemma {:induction false} CacheHolds(rs: seq<Request>, lim: Limits, key: string)
    requires Ordered(rs) && Prompt(rs, lim.window * SECOND) && lim.window > 0 && |rs| <= INT_MAX
    ensures Holds(CacheAfter(rs, lim), rs, lim, key)
  {
    hide Ordered, Prompt, SlotText, SlotAt, SlotAfter;
    if rs != [] {
      var init, r := rs[..|rs| - 1], rs[|rs| - 1];
      OrderedInit(rs, lim.window * SECOND);
      CacheHolds(init, lim, key);
      if r.key == key {
        SlotHeld(init, r, lim);
        assert TimesOf(rs, key) == TimesOf(init, key) + [Seconds(r.seen)];
        assert KeptAt(rs, key) == r.kept;
        assert CacheAfter(rs, lim) == ItemsAfter(CacheAfter(init, lim), r, lim);
      } else {
        assert TimesOf(rs, key) == TimesOf(init, key) + [] == TimesOf(init, key);
        assert KeptAt(rs, key) == KeptAt(init, key);
      }
    }
  }

  /** The slot found in the cache, or the lack of one, leads to the slot of the window counter. */
  lemma SlotHeld(rs: seq<Request>, r: Request, lim: Limits)
    requires Ordered(rs) && lim.window > 0 && |rs| < INT_MAX
    requires r.got - r.seen <= lim.window * SECOND && r.got <= INT64_MAX
    requires Holds(CacheAfter(rs, lim), rs, lim, r.key)
    ensures SlotAfter(CacheAfter(rs, lim), r, lim) == SlotAt(TimesOf(rs, r.key) + [Seconds(r.seen)], lim.window)
  {
    hide Ordered, SlotText, CacheAfter, TimesOf, KeptAt, SlotOf;
    var items, times, now := CacheAfter(rs, lim), TimesOf(rs, r.key), Seconds(r.seen);
    assert (times + [now])[..|times|] == times;
    NoSlot(now);
    if times != [] {
      TimesBounds(rs, r.key);
      SlotBounds(times, lim.window);
      var s := SlotAt(times, lim.window);
      if Expired(items[r.key], r.got) {
        assert times[|times| - 1] in times;
        ExpiredIsOver(times[|times| - 1], KeptAt(rs, r.key), r.seen, r.got, lim.window);
      } else {
        SlotFits(rs, r.key, s, lim.window);
        SlotTextReadsBack(s, now);
      }
    }
  }

  lemma NoSlot(now: int)
    ensures SlotOf(None, now) == Slot(0, now)
  {}

  lemma SlotFits(rs: seq<Request>, key: string, s: Slot, window: int)
    requires Ordered(rs) && window > 0 && |rs| < INT_MAX && TimesOf(rs, key) != [] && s == SlotAt(TimesOf(rs, key), window)
    ensures 1 <= s.count <= INT_MAX && 0 <= s.start <= INT64_MAX
  {
    hide TimesOf, SlotAt;
    TimesBounds(rs, key);
    SlotBounds(TimesOf(rs, key), window);
    assert s.start * SECOND <= KeptAt(rs, key);
  }

  /** The expiry of the cache is never observed: over any interleaving of clients, each request is
      answered by the window counter of its own client's requests. */
  lemma ExpiryUnseen(rs: seq<Request>, r: Request, lim: Limits)
    requires Ordered(rs + [r]) && Prompt(rs + [r], lim.window * SECOND) && lim.window > 0 && |rs| < INT_MAX
    ensures SlotAfter(CacheAfter(rs, lim), r, lim) == SlotAt(TimesOf(rs, r.key) + [Seconds(r.seen)], lim.window)
  {
    hide Ordered, Prompt, CacheAfter, TimesOf, SlotAt, KeptAt, SlotAfter;
    OrderedInit(rs + [r], lim.window * SECOND);
    assert (rs + [r])[..|rs|] == rs;
    CacheHolds(rs, lim, r.key);
    SlotHeld(rs, r, lim);
  }

  /** The requests of a run that the cache-backed limiter admits to one client at a second in
      `lo..hi`. */
  function AdmittedThrough(rs: seq<Request>, lim: Limits, key: string, lo: int, hi: int): nat {
    if rs == [] then 0
    else
      var init, r := rs[..|rs| - 1], rs[|rs| - 1];
      var a := AnswerFor(SlotAfter(CacheAfter(init, lim), r, lim), Seconds(r.seen), lim);
      AdmittedThrough(init, lim, key, lo, hi) + if r.key == key && lo <= Seconds(r.seen) < hi && a.Admitted? then 1 else 0
  }

  lemma {:induction false} AdmittedThroughIs(rs: seq<Request>, lim: Limits, key: string, lo: int, hi: int)
    requires Ordered(rs) && Prompt(rs, lim.window * SECOND) && lim.window > 0 && |rs| <= INT_MAX
    ensures AdmittedThrough(rs, lim, key, lo, hi) == AdmittedIn(TimesOf(rs, key), lim, lo, hi)
  {
    hide Ordered, Prompt, CacheAfter, SlotAfter, SlotAt;
    if rs != [] {
      var init, r := rs[..|rs| - 1], rs[|rs| - 1];
      assert rs == init + [r];
      OrderedInit(rs, lim.window * SECOND);
      AdmittedThroughIs(init, lim, key, lo, hi);
      ExpiryUnseen(init, r, lim);
      if r.key == key {
        var times := TimesOf(init, key) + [Seconds(r.seen)];
        assert times[..|times| - 1] == TimesOf(init, key);
      } else {
        assert TimesOf(rs, key) == TimesOf(init, key) + [] == TimesOf(init, key);
      }
    }
  }

  /** The limit as a client meets it: over any interleaving of clients, the answers the cache-backed
      limiter gives admit at most `Most` of one client's requests in any `window` seconds. */
  lemma LimiterAdmits(rs: seq<Request>, lim: Limits, key: string, lo: int)
    requires Ordered(rs) && Prompt(rs, lim.window * SECOND) && |rs| <= INT_MAX && lim.window > 0 && lim.max >= 1
    ensures AdmittedThrough(rs, lim, key, lo, lo + lim.window) <= Most(lim)
  {
    hide AdmittedThrough, AdmittedIn, Ordered, Prompt;
    AdmittedThroughIs(rs, lim, key, lo, lo + lim.window);
    TimesBounds(rs, key);
    IntervalAdmits(TimesOf(rs, key), lim, lo);
  }

  /** Requests of other clients leave a client's times alone. */
  lemma {:induction false} OthersUnseen(rs: seq<Request>, others: seq<Request>, key: string)
    requires forall o <- others :: o.key != key
    ensures TimesOf(rs + others, key) == TimesOf(rs, key)
  {
    var n := |others|;
    if n == 0 {
      assert rs + others == rs;
    } else {
      var all := rs + others;
      assert all[..|all| - 1] == rs + others[..n - 1] && all[|all| - 1] == others[n - 1] && others[n - 1] in others;
      OthersUnseen(rs, others[..n - 1], key);
    }
  }

  /** The wait as a client meets it: refused on `r`, whatever others do, its next request `next` is
      admitted if and only if the seconds it was told have passed. */
  lemma ToldWaitIsExact(rs: seq<Request>, r: Request, others: seq<Request>, next: Request, lim: Limits)
    requires Ordered(rs + [r] + others + [next]) && Prompt(rs + [r] + others + [next], lim.window * SECOND)
    requires lim.window > 0 && lim.max >= 1 && |rs + [r] + others| < INT_MAX
    requires next.key == r.key && forall o <- others :: o.key != r.key
    ensures var told := AnswerFor(SlotAfter(CacheAfter(rs, lim), r, lim), Seconds(r.seen), lim);
      var later := AnswerFor(SlotAfter(CacheAfter(rs + [r] + others, lim), next, lim), Seconds(next.seen), lim);
      told.Refused? ==> (later == Admitted <==> Seconds(next.seen) >= Seconds(r.seen) + told.retryAfter)
  {
    hide CacheAfter, TimesOf, SlotAt, SlotAfter, AnswerFor, Ordered, Prompt, NonDecreasing;
    var all := rs + [r] + others;
    PrefixOrdered(all + [next], |rs| + 1, lim.window * SECOND);
    assert (all + [next])[..|rs| + 1] == rs + [r];
    ExpiryUnseen(rs, r, lim);
    ExpiryUnseen(all, next, lim);
    OthersUnseen(rs + [r], others, r.key);
    TimesAppend(rs, r);
    TimesAppend(all, next);
    TimesBounds(all + [next], r.key);
    WaitIsLeast(TimesOf(rs, r.key) + [Seconds(r.seen)], Seconds(next.seen), lim);
  }

  lemma PrefixOrdered(rs: seq<Request>, n: nat, delay: int)
    requires Ordered(rs) && Prompt(rs, delay) && n <= |rs|
    ensures Ordered(rs[..n]) && Prompt(rs[..n], delay)
  {
    assert forall r <- rs[..n] :: r in rs;
  }

  lemma TimesAppend(rs: seq<Request>, r: Request)
    ensures TimesOf(rs + [r], r.key) == TimesOf(rs, r.key) + [Seconds(r.seen)]
  {
    assert (rs + [r])[..|rs|] == rs;
  }

  // ---- how prompt a read must be ----

  /** Every answer is the window counter's, in any run whose counters are read at most `delay`
      nanoseconds after the request is seen. */
  ghost predicate AnswersAsCounter(lim: Limits, delay: int) {
    forall rs, r ::
      Ordered(rs + [r]) && Prompt(rs + [r], delay) && |rs| < INT_MAX ==>
      var now := Seconds(r.seen);
      AnswerFor(SlotAfter(CacheAfter(rs, lim), r, lim), now, lim)
        == AnswerFor(SlotAt(TimesOf(rs, r.key) + [now], lim.window), now, lim)
  }

  /** `max` requests in second 0, and one more in the window's last nanosecond. */
  function Burst(lim: Limits): seq<Request>
    requires lim.max >= 1
  {
    seq(lim.max, _ => Request("client", 0, 0, 0))
  }

  function Straggler(lim: Limits): Request
    requires lim.window >= 1
  {
    Request("client", lim.window * SECOND - 1, 2 * lim.window * SECOND, 2 * lim.window * SECOND)
  }

  lemma {:induction false} BurstTimes(rs: seq<Request>)
    requires forall r <- rs :: r == Request("client", 0, 0, 0)
    ensures TimesOf(rs, "client") == Times(|rs|, 0) && KeptAt(rs, "client") == 0
  {
    if rs != [] {
      var init := rs[..|rs| - 1];
      assert rs[|rs| - 1] in rs && forall r <- init :: r in rs;
      BurstTimes(init);
    }
  }

  /** A read one nanosecond later than promptness allows does see the expiry: the counter would
      refuse the request, and the limiter, having lost it, admits it in a window not yet over. */
  lemma StragglerIsAdmitted(lim: Limits)
    requires 1 <= lim.max < INT_MAX && lim.window >= 1
    ensures var rs, r := Burst(lim), Straggler(lim);
      && r.got - r.seen == lim.window * SECOND + 1
      && SlotAfter(CacheAfter(rs, lim), r, lim) == Slot(1, lim.window - 1)
      && SlotAt(TimesOf(rs, r.key) + [Seconds(r.seen)], lim.window) == Slot(lim.max + 1, 0)
  {
    hide CacheAfter, TimesOf, KeptAt, SlotAt;
    var rs, r := Burst(lim), Straggler(lim);
    BurstTimes(rs);
    CacheHolds(rs, lim, "client");
    FirstTime(0, lim, 0, 0);
    Repeats([0], lim.max - 1, 0, lim, 0, 0);
    assert [0] + Times(lim.max - 1, 0) == Times(lim.max, 0);
    LastNanosecond(lim.window);
    NoSlot(lim.window - 1);
    Repeats(Times(lim.max, 0), 1, lim.window - 1, lim, 0, 0);
    assert Times(1, lim.window - 1) == [lim.window - 1];
  }

  lemma LastNanosecond(w: int)
    requires w >= 1
    ensures Seconds(w * SECOND - 1) == w - 1
  {}

  /** Exactly how prompt: answers are those of a counter that never expires if and only if counters
      are read within one window of the request. */
  lemma PromptnessIsExact(lim: Limits, delay: int)
    requires 1 <= lim.max < INT_MAX && lim.window >= 1 && 2 * lim.window * SECOND <= INT64_MAX
    ensures AnswersAsCounter(lim, delay) <==> delay <= lim.window * SECOND
  {
    hide CacheAfter, TimesOf, SlotAt, SlotAfter, AnswerFor, Ordered;
    if delay <= lim.window * SECOND {
      forall rs, r | Ordered(rs + [r]) && Prompt(rs + [r], delay) && |rs| < INT_MAX
        ensures SlotAfter(CacheAfter(rs, lim), r, lim) == SlotAt(TimesOf(rs, r.key) + [Seconds(r.seen)], lim.window)
      {
        ExpiryUnseen(rs, r, lim);
      }
    } else {
      StragglerIsAdmitted(lim);
      BurstOrdered(lim);
      AnswersDiffer(lim);
      assert Prompt(Burst(lim) + [Straggler(lim)], delay);
    }
  }

  lemma BurstOrdered(lim: Limits)
    requires 1 <= lim.max && lim.window >= 1 && 2 * lim.window * SECOND <= INT64_MAX
    ensures Ordered(Burst(lim) + [Straggler(lim)])
  {}

  lemma AnswersDiffer(lim: Limits)
    requires 1 <= lim.max && lim.window >= 1
    ensures AnswerFor(Slot(1, lim.window - 1), lim.window - 1, lim) != AnswerFor(Slot(lim.max + 1, 0), lim.window - 1, lim)
  {}

  /** The smallest case: one request a second, read two seconds late. */
  lemma StalledReadRestarts()
    ensures var lim, first, late := Limits(1, 1), Request("client", 0, 0, 0), Request("client", SECOND - 1, 2 * SECOND, 2 * SECOND);
      && SlotAfter(CacheAfter([first], lim), late, lim) == Slot(1, 0)
      && SlotAt(TimesOf([first], "client") + [0], lim.window) == Slot(2, 0)
  {
    var lim := Limits(1, 1);
    StragglerIsAdmitted(lim);
    assert Burst(lim) == [Request("client", 0, 0, 0)];
    LastNanosecond(1);
  }
}
