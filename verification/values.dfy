/** Decoded values and the records (Python dicts) that hold them.

    A record is an insertion-ordered dictionary from field names to values,
    the shape every decoder of the engine fills and every later stage reads.
    Values are what the integer decoders produce: integers, hex strings
    (`bytes.hex()` of raw fields) and `None`. */
module Values {
  import opened Wrappers
  import opened PyStr

  datatype Value = VInt(i: int) | VStr(s: string) | VNone

  /** `int(v)`: strings parse in base 10, `None` raises `TypeError`. */
  function IntOf(v: Value): (r: Result<int>)
    ensures v.VInt? ==> r == Ok(v.i)
    ensures v.VNone? ==> r.Err?
    ensures v.VStr? && IsDecimal(v.s) ==> r == Ok(DecimalValue(v.s))
  {
    match v
    case VInt(i) => Ok(i)
    case VStr(s) => PyIntOfStr(s)
    case VNone => Err("int() argument must be a string or a number, not 'NoneType'")
  }

  /** `str(v)` */
  function Str(v: Value): string {
    match v
    case VInt(i) => IntToDecimal(i)
    case VStr(s) => s
    case VNone => "None"
  }

  /** Python truthiness of a looked-up value; a missing key reads `None`. */
  predicate Truthy(v: Option<Value>) {
    v.Some? && match v.value
               case VInt(i) => i != 0
               case VStr(s) => s != ""
               case VNone => false
  }

  type Entry = (string, Value)

  /** A Python dict in insertion order. */
  type Dict = seq<Entry>

  predicate Keys(d: Dict, k: string) {
    exists i :: 0 <= i < |d| && d[i].0 == k
  }

  /** No key occurs twice. */
  predicate Distinct(d: Dict) {
    forall i, j :: 0 <= i < j < |d| ==> d[i].0 != d[j].0
  }

  /** `k in d` */
  function Has(d: Dict, k: string): (r: bool)
    ensures r <==> Keys(d, k)
  {
    if |d| == 0 then false
    else if d[0].0 == k then true
    else
      assert Keys(d, k) ==> Keys(d[1..], k) by {
        if Keys(d, k) {
          var i :| 0 <= i < |d| && d[i].0 == k;
          assert d[1..][i - 1].0 == k;
        }
      }
      Has(d[1..], k)
  }

  /** `d.get(k)` */
  function Get(d: Dict, k: string): (r: Option<Value>)
    ensures r.Some? <==> Has(d, k)
    ensures r.Some? ==> (k, r.value) in d
  {
    if |d| == 0 then None
    else if d[0].0 == k then Some(d[0].1)
    else Get(d[1..], k)
  }

  /** `d.get(k)` where a missing key reads as `None`. */
  function GetOrNone(d: Dict, k: string): Value {
    Get(d, k).GetOr(VNone)
  }

  /** `d[k] = v`: an existing key keeps its place, a new key goes last. */
  function Set(d: Dict, k: string, v: Value): (r: Dict)
    ensures Get(r, k) == Some(v)
    ensures forall k' :: k' != k ==> Get(r, k') == Get(d, k')
    ensures Has(d, k) ==> |r| == |d|
    ensures !Has(d, k) ==> r == d + [(k, v)]
    ensures Distinct(d) ==> Distinct(r)
  {
    if |d| == 0 then [(k, v)]
    else if d[0].0 == k then [(k, v)] + d[1..]
    else
      var rest := Set(d[1..], k, v);
      assert Distinct(d) ==> Distinct(d[1..]) by {
        if Distinct(d) {
          forall i, j | 0 <= i < j < |d| - 1
            ensures d[1..][i].0 != d[1..][j].0
          {
            assert d[1..][i] == d[i + 1] && d[1..][j] == d[j + 1];
          }
        }
      }
      assert [d[0]] + d[1..] == d;
      assert Get(rest, d[0].0) == Get(d[1..], d[0].0);
      DistinctCons(d[0], rest, d[1..], k);
      NewKeyGoesLast(d, k, v, rest);
      [d[0]] + rest
  }

  lemma NewKeyGoesLast(d: Dict, k: string, v: Value, rest: Dict)
    requires |d| > 0 && d[0].0 != k
    requires !Has(d[1..], k) ==> rest == d[1..] + [(k, v)]
    ensures !Has(d, k) ==> [d[0]] + rest == d + [(k, v)]
  {
    if !Has(d, k) {
      assert [d[0]] + d[1..] == d;
    }
  }

  /** Setting a key adds that key and no other. */
  lemma SetKeys(d: Dict, k: string, v: Value)
    ensures forall k' :: Has(Set(d, k, v), k') <==> Has(d, k') || k' == k
  {
    forall k' ensures Has(Set(d, k, v), k') <==> Has(d, k') || k' == k {
      if k' != k {
        assert Get(Set(d, k, v), k') == Get(d, k');
      }
    }
  }

  lemma DistinctCons(e: Entry, rest: Dict, tail: Dict, k: string)
    requires e.0 != k
    requires Distinct([e] + tail) ==> Distinct(tail)
    requires Has(rest, e.0) <==> Has(tail, e.0)
    requires Distinct(tail) ==> Distinct(rest)
    ensures Distinct([e] + tail) ==> Distinct([e] + rest)
  {
    if Distinct([e] + tail) {
      forall i | 0 <= i < |tail|
        ensures tail[i].0 != e.0
      {
        assert ([e] + tail)[i + 1] == tail[i] && ([e] + tail)[0] == e;
      }
      var d := [e] + rest;
      forall i, j | 0 <= i < j < |d|
        ensures d[i].0 != d[j].0
      {
        if i == 0 {
          assert d[j] == rest[j - 1];
          assert !Keys(rest, e.0);
        } else {
          assert d[i] == rest[i - 1] && d[j] == rest[j - 1];
        }
      }
    }
  }
}
