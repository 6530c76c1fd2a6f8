/** Counting the elements of a sequence that satisfy a predicate, the way
    LINQ's `Count(predicate)` does. The predicate may fail; then the count
    fails with the first failure met, scanning front to back. */
module Counting {
  import opened Results

  /** Indices of `s` whose element the test accepts. */
  ghost function Hits<T>(s: seq<T>, test: T -> Result<bool>): set<int> {
    set i | 0 <= i < |s| && test(s[i]) == Ok(true)
  }

  lemma HitsSnoc<T>(s: seq<T>, test: T -> Result<bool>)
    requires |s| > 0
    ensures |Hits(s, test)| == |Hits(s[..|s| - 1], test)| + (if test(s[|s| - 1]) == Ok(true) then 1 else 0)
  {
    var n := |s| - 1;
    var before := Hits(s[..n], test);
    if test(s[n]) == Ok(true) {
      assert Hits(s, test) == before + {n};
    } else {
      assert Hits(s, test) == before;
    }
  }

  function TryCount<T>(s: seq<T>, test: T -> Result<bool>): (r: Result<nat>)
    ensures r.Ok? <==> forall i :: 0 <= i < |s| ==> test(s[i]).Ok?
    ensures r.Ok? ==> r.value <= |s|
    decreases |s|
  {
    if |s| == 0 then Ok(0)
    else
      var n := |s| - 1;
      match TryCount(s[..n], test)
      case Err(f) =>
        assert forall j :: 0 <= j < n ==> s[..n][j] == s[j];
        Err(f)
      case Ok(m) =>
        assert forall j :: 0 <= j < n ==> s[..n][j] == s[j];
        match test(s[n])
        case Err(f) => Err(f)
        case Ok(hit) => Ok(if hit then m + 1 else m)
  }

  /** A failed count reports the failure of the first element the test fails on. */
  lemma {:induction false} TryCountFirstFailure<T>(s: seq<T>, test: T -> Result<bool>)
    ensures var r := TryCount(s, test);
            r.Err? ==> exists i :: && 0 <= i < |s|
                                   && test(s[i]) == Err(r.failure)
                                   && forall j :: 0 <= j < i ==> test(s[j]).Ok?
    decreases |s|
  {
    if |s| > 0 {
      var n := |s| - 1;
      TryCountFirstFailure(s[..n], test);
      assert forall j :: 0 <= j < n ==> s[..n][j] == s[j];
    }
  }

  /** A successful count is the number of elements the test accepts. */
  lemma {:induction false} TryCountIsHits<T>(s: seq<T>, test: T -> Result<bool>)
    ensures TryCount(s, test).Ok? ==> TryCount(s, test).value == |Hits(s, test)|
    decreases |s|
  {
    if |s| > 0 {
      TryCountIsHits(s[..|s| - 1], test);
      HitsSnoc(s, test);
    }
  }

  /** A successful count is zero exactly when the test rejects every element. */
  lemma {:induction false} TryCountZero<T>(s: seq<T>, test: T -> Result<bool>)
    ensures TryCount(s, test).Ok? ==> (TryCount(s, test).value == 0 <==> forall i :: 0 <= i < |s| ==> test(s[i]) == Ok(false))
    decreases |s|
  {
    if |s| > 0 {
      var n := |s| - 1;
      TryCountZero(s[..n], test);
      assert forall j :: 0 <= j < n ==> s[..n][j] == s[j];
    }
  }

  /** Indices of `s` whose element satisfies `test`. */
  ghost function Where<T>(s: seq<T>, test: T -> bool): set<int> {
    set i | 0 <= i < |s| && test(s[i])
  }

  /** A count whose test cannot fail. */
  function Count<T>(s: seq<T>, test: T -> bool): (r: nat)
    ensures r == |Where(s, test)|
    ensures r <= |s|
    ensures r == 0 <==> forall i :: 0 <= i < |s| ==> !test(s[i])
  {
    var lifted := (x: T) => Ok(test(x));
    var c := TryCount(s, lifted);
    TryCountIsHits(s, lifted);
    TryCountZero(s, lifted);
    assert Hits(s, lifted) == Where(s, test);
    c.value
  }

  /** Adds two counts, keeping the first failure. */
  function AddCounts(a: Result<nat>, b: Result<nat>): Result<nat> {
    match a
    case Err(f) => Err(f)
    case Ok(m) =>
      match b
      case Err(f) => Err(f)
      case Ok(n) => Ok(m + n)
  }

  /** Counting a concatenation counts each part and adds, the first part's
      failure taking precedence. */
  lemma {:induction false} TryCountConcat<T>(a: seq<T>, b: seq<T>, test: T -> Result<bool>)
    ensures TryCount(a + b, test) == AddCounts(TryCount(a, test), TryCount(b, test))
    decreases |b|
  {
    if |b| == 0 {
      assert a + b == a;
    } else {
      var n := |b| - 1;
      var ab := a + b;
      TryCountConcat(a, b[..n], test);
      assert ab[..|ab| - 1] == a + b[..n];
      assert ab[|ab| - 1] == b[n];
      var ta, tb, tn := TryCount(a, test), TryCount(b[..n], test), test(b[n]);
      assert TryCount(b, test) == AddCounts(tb, match tn case Err(f) => Err(f) case Ok(hit) => Ok(if hit then 1 else 0));
      assert TryCount(ab, test) == AddCounts(AddCounts(ta, tb), match tn case Err(f) => Err(f) case Ok(hit) => Ok(if hit then 1 else 0));
    }
  }

  /** If the test `wide` accepts everything `narrow` accepts, and `narrow`
      fails no more often, a count under `wide` bounds the count under `narrow`. */
  lemma {:induction false} TryCountMonotone<T>(s: seq<T>, narrow: T -> Result<bool>, wide: T -> Result<bool>)
    requires forall i :: 0 <= i < |s| && wide(s[i]).Ok? ==> narrow(s[i]).Ok?
    requires forall i :: 0 <= i < |s| && narrow(s[i]) == Ok(true) ==> wide(s[i]) == Ok(true)
    ensures TryCount(s, wide).Ok? ==> TryCount(s, narrow).Ok? && TryCount(s, narrow).value <= TryCount(s, wide).value
    decreases |s|
  {
    if |s| > 0 {
      var n := |s| - 1;
      assert forall i :: 0 <= i < n ==> s[..n][i] == s[i];
      TryCountMonotone(s[..n], narrow, wide);
    }
  }
}
