/** The fixed-capacity ring buffer a live producer shares with a viewer:
    a block of `capacity` point slots, the slot the next point goes to
    (`write_index`) and a counter of writes (`seq`).  Shared memory, the
    write clock and the float columns of a point are not modelled; a
    point is any value of type `T`. */
module Ring {
  import opened Wrappers
  import opened PyInt

  /** The control block and the slots; the capacity is the number of
      slots. */
  datatype Ring<T> = Ring(data: seq<T>, writeIndex: int, seqNo: nat)

  predicate Valid<T>(r: Ring<T>) {
    |r.data| > 0 && 0 <= r.writeIndex < |r.data|
  }

  /** `create_ring(name, capacity_points)`: every slot zero, nothing
      written yet. */
  function CreateRing<T>(capacity: int, zero: T): (r: Result<Ring<T>>)
    ensures r.Ok? <==> capacity > 0
    ensures r.Ok? ==> Valid(r.value) && |r.value.data| == capacity && r.value.writeIndex == 0 && r.value.seqNo == 0
    ensures r.Ok? ==> forall i :: 0 <= i < capacity ==> r.value.data[i] == zero
  {
    if capacity <= 0 then Err("capacity_points must be > 0")
    else Ok(Ring(seq(capacity, _ => zero), 0, 0))
  }

  // ---------------------------------------------------------------------
  // Modular arithmetic

  lemma ModAddMultiple(x: int, q: int, c: int)
    requires c > 0
    ensures (x + c * q) % c == x % c
  {
    assert x + c * q == c * (x / c + q) + x % c;
    DivUnique(x + c * q, c, x / c + q, x % c);
  }

  /** Reducing one summand first does not change the remainder. */
  lemma ModAddReduce(a: int, b: int, c: int)
    requires c > 0
    ensures (a % c + b) % c == (a + b) % c
  {
    assert a + b == (a % c + b) + c * (a / c);
    ModAddMultiple(a % c + b, a / c, c);
  }

  // ---------------------------------------------------------------------
  // write_points

  /** The rows a write keeps: all of them, or the last `capacity` when
      there are at least that many. */
  function Kept<T>(r: Ring<T>, rows: seq<T>): (k: seq<T>)
    requires Valid(r)
    ensures |k| == Min(|rows|, |r.data|)
    ensures forall j :: 0 <= j < |k| ==> k[j] == rows[|rows| - |k| + j]
  {
    if |rows| >= |r.data| then rows[|rows| - |r.data|..] else rows
  }

  function Min(a: int, b: int): int {
    if a <= b then a else b
  }

  /** The slot the kept rows start at: the write index, or slot 0 when
      the rows fill the whole ring. */
  function StartSlot<T>(r: Ring<T>, rows: seq<T>): (w: int)
    requires Valid(r)
    ensures 0 <= w < |r.data|
    ensures |rows| >= |r.data| ==> w == 0
    ensures |rows| < |r.data| ==> w == r.writeIndex
  {
    if |rows| >= |r.data| then 0 else r.writeIndex
  }

  /** Slot `s` is among the `m` slots from `w` on, counted round the
      ring. */
  predicate InWindow(s: int, w: int, m: int, cap: int)
    requires cap > 0
  {
    (s - w) % cap < m
  }

  /** The slice assignments of a write: the kept rows go to slots
      `[w, w + m)` when they fit before the end of the ring; otherwise
      the first `cap - w` of them fill `[w, cap)` and the rest `[0, end - cap)`. */
  function Splice<T>(data: seq<T>, kept: seq<T>, w: int): (d: seq<T>)
    requires 0 <= w < |data| && |kept| <= |data|
    ensures |d| == |data|
    ensures forall j :: 0 <= j < |kept| && w + j < |data| ==> d[w + j] == kept[j]
    ensures forall j :: 0 <= j < |kept| && w + j >= |data| ==> d[w + j - |data|] == kept[j]
    ensures forall s :: 0 <= s < |data| && (s < w ==> s >= w + |kept| - |data|) && (s >= w ==> s >= w + |kept|) ==>
              d[s] == data[s]
  {
    var cap := |data|;
    var end := w + |kept|;
    if end <= cap then data[..w] + kept + data[end..]
    else
      var first := cap - w;
      kept[first..] + data[end - cap..w] + kept[..first]
  }

  /** `write_points(h, rows)`: no rows change nothing; otherwise the kept
      rows are spliced in from the start slot, the write index moves past
      them and the counter goes up by one. */
  function WritePoints<T>(r: Ring<T>, rows: seq<T>): (r': Ring<T>)
    requires Valid(r)
    ensures Valid(r') && |r'.data| == |r.data|
    ensures |rows| == 0 ==> r' == r
    ensures |rows| > 0 ==>
              r'.seqNo == r.seqNo + 1
              && r'.writeIndex == (StartSlot(r, rows) + Min(|rows|, |r.data|)) % |r.data|
  {
    if |rows| == 0 then r
    else
      var kept := Kept(r, rows);
      var w := StartSlot(r, rows);
      Ring(Splice(r.data, kept, w), (w + |kept|) % |r.data|, r.seqNo + 1)
  }

  /** A remainder of a value at most one capacity away from the range. */
  lemma ModOnce(x: int, c: int)
    requires c > 0 && -c <= x < 2 * c
    ensures 0 <= x < c ==> x % c == x
    ensures x >= c ==> x % c == x - c
    ensures x < 0 ==> x % c == x + c
  {
    if 0 <= x < c {
      DivUnique(x, c, 0, x);
    } else if x >= c {
      DivUnique(x, c, 1, x - c);
    } else {
      DivUnique(x, c, -1, x + c);
    }
  }

  /** `d` is `data` after writing `kept` from slot `w` on, round the ring:
      the `j`-th row is in slot `(w + j) mod capacity`, and every slot
      outside that window holds what it held. */
  ghost predicate WrittenFrom<T>(d: seq<T>, data: seq<T>, kept: seq<T>, w: int)
    requires |d| == |data| > 0
  {
    (forall j :: 0 <= j < |kept| ==> d[(w + j) % |data|] == kept[j])
    && (forall s :: 0 <= s < |data| && !InWindow(s, w, |kept|, |data|) ==> d[s] == data[s])
  }

  /** The splice is a write round the ring. */
  lemma SpliceSlots<T>(data: seq<T>, kept: seq<T>, w: int)
    requires 0 <= w < |data| && |kept| <= |data|
    ensures WrittenFrom(Splice(data, kept, w), data, kept, w)
  {
    var cap := |data|;
    var m := |kept|;
    var d := Splice(data, kept, w);
    forall j | 0 <= j < m
      ensures d[(w + j) % cap] == kept[j]
    {
      ModOnce(w + j, cap);
    }
    forall s | 0 <= s < cap && !InWindow(s, w, m, cap)
      ensures d[s] == data[s]
    {
      ModOnce(s - w, cap);
    }
  }

  /** What a non-empty write does to each slot: the kept rows are written
      round the ring from the start slot, and nothing else changes. */
  lemma WriteSlots<T>(r: Ring<T>, rows: seq<T>)
    requires Valid(r) && |rows| > 0
    ensures WrittenFrom(WritePoints(r, rows).data, r.data, Kept(r, rows), StartSlot(r, rows))
  {
    var kept := Kept(r, rows);
    var w := StartSlot(r, rows);
    assert WritePoints(r, rows).data == Splice(r.data, kept, w);
    SpliceSlots(r.data, kept, w);
  }

  // ---------------------------------------------------------------------
  // read_latest

  /** `read_latest(h, max_points)`: the `min(max_points, capacity)` slots
      just before the write index, oldest first; nothing for a
      non-positive count. */
  function ReadLatest<T>(r: Ring<T>, maxPoints: int): (out: seq<T>)
    requires Valid(r)
    ensures maxPoints <= 0 ==> out == []
    ensures maxPoints > 0 ==> |out| == Min(maxPoints, |r.data|)
    ensures forall j :: 0 <= j < |out| ==> out[j] == r.data[(r.writeIndex - |out| + j) % |r.data|]
  {
    var cap := |r.data|;
    if maxPoints <= 0 then []
    else
      var k := Min(maxPoints, cap);
      var w := r.writeIndex;
      var start := (w - k) % cap;
      StartSlotOf(w, k, cap);
      var out := if start < w then r.data[start..w] else r.data[start..cap] + r.data[0..w];
      ReadSlots(r.data, w, k, start, out);
      out
  }

  /** `(w - k) % cap` for a window no longer than the ring. */
  lemma StartSlotOf(w: int, k: int, cap: int)
    requires 0 <= w < cap && 0 < k <= cap
    ensures w - k >= 0 ==> (w - k) % cap == w - k
    ensures w - k < 0 ==> (w - k) % cap == w - k + cap
  {
    if w - k >= 0 {
      DivUnique(w - k, cap, 0, w - k);
    } else {
      DivUnique(w - k, cap, -1, w - k + cap);
    }
  }

  /** The slot arithmetic of `ReadLatest`'s two cases. */
  lemma ReadSlots<T>(data: seq<T>, w: int, k: int, start: int, out: seq<T>)
    requires 0 <= w < |data| && 0 < k <= |data|
    requires w - k >= 0 ==> start == w - k
    requires w - k < 0 ==> start == w - k + |data|
    requires out == if start < w then data[start..w] else data[start..|data|] + data[0..w]
    ensures |out| == k
    ensures forall j :: 0 <= j < k ==> out[j] == data[(w - k + j) % |data|]
  {
    var cap := |data|;
    forall j | 0 <= j < k
      ensures out[j] == data[(w - k + j) % cap]
    {
      ModOnce(w - k + j, cap);
    }
  }

  /** Reading the `k` slots before the end of a window written round the
      ring gives the window's last `k` values. */
  lemma LatestOfWritten<T>(d: seq<T>, data: seq<T>, kept: seq<T>, w: int, wEnd: int, out: seq<T>)
    requires |d| == |data| > 0 && 0 <= w < |d| && |kept| <= |d| && 0 < |out| <= |kept|
    requires WrittenFrom(d, data, kept, w)
    requires wEnd == (w + |kept|) % |d|
    requires forall j :: 0 <= j < |out| ==> out[j] == d[(wEnd - |out| + j) % |d|]
    ensures out == kept[|kept| - |out|..]
  {
    var cap := |d|;
    var m := |kept|;
    var k := |out|;
    forall j | 0 <= j < k
      ensures out[j] == kept[m - k + j]
    {
      ModAddReduce(w + m, j - k, cap);
      assert ((w + m) % cap - k + j) % cap == (w + (m - k + j)) % cap;
    }
  }

  /** `read_latest` on a ring whose last write put `kept` round the ring
      from slot `w`. */
  lemma ReadOfWritten<T>(r: Ring<T>, data: seq<T>, kept: seq<T>, w: int, k: int)
    requires Valid(r) && |r.data| == |data| && 0 <= w < |data| && 0 < k <= |kept| <= |data|
    requires WrittenFrom(r.data, data, kept, w)
    requires r.writeIndex == (w + |kept|) % |data|
    ensures ReadLatest(r, k) == kept[|kept| - k..]
  {
    LatestOfWritten(r.data, data, kept, w, r.writeIndex, ReadLatest(r, k));
  }

  /** A read right after a non-empty write returns the last rows written,
      in order, for any count up to what the write kept. */
  lemma ReadAfterWrite<T>(r: Ring<T>, rows: seq<T>, k: int)
    requires Valid(r) && |rows| > 0
    requires 0 < k <= Min(|rows|, |r.data|)
    ensures ReadLatest(WritePoints(r, rows), k) == rows[|rows| - k..]
  {
    var kept := Kept(r, rows);
    WriteSlots(r, rows);
    ReadOfWritten(WritePoints(r, rows), r.data, kept, StartSlot(r, rows), k);
    assert kept[|kept| - k..] == rows[|rows| - k..];
  }
}
