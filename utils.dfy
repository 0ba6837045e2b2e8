/**
 * `DataProcessor` and `RetryUtils`: the post-processing of extracted records
 * (cleaning, validation, a summary) and the bounded retry wrapper.
 */
module Utils {
  import opened Wrappers
  import opened DataExtractor

  /** Python truthiness of the value: absent, `None` and `0.0` are all false. */
  predicate Truthy(v: Option<real>) {
    v.Some? && v.value != 0.0
  }

  /** Python truthiness of a text: absent, `None` and `""` are all false. */
  predicate TruthyText(s: Option<string>) {
    s.Some? && s.value != []
  }

  // ------------------------------------------------------------- clean_data

  /** The cleaned copy of one kept record: `raw_data` only when non-empty, and the extraction time. */
  function CleanRecord(r: Record, now: string): Record {
    Record(r.value, r.datetime, if r.rawData.Some? && r.rawData.value != [] then r.rawData else None, Some(now))
  }

  /** What `clean_data` returns; `now` stands for `datetime.now().isoformat()`. */
  function Cleaned(raw: seq<Record>, now: string): seq<Record> {
    if raw == [] then []
    else
      var last := raw[|raw| - 1];
      Cleaned(raw[..|raw| - 1], now) + (if Truthy(last.value) then [CleanRecord(last, now)] else [])
  }

  /** `clean_data`. */
  method CleanData(raw: seq<Record>, now: string) returns (cleaned: seq<Record>)
    ensures cleaned == Cleaned(raw, now)
  {
    cleaned := [];
    var i := 0;
    while i < |raw|
      invariant 0 <= i <= |raw|
      invariant cleaned == Cleaned(raw[..i], now)
    {
      assert raw[..i + 1][..i] == raw[..i];
      var item := raw[i];
      if Truthy(item.value) {
        var rawData := None;
        if item.rawData.Some? && item.rawData.value != [] {
          rawData := item.rawData;
        }
        cleaned := cleaned + [Record(item.value, item.datetime, rawData, Some(now))];
      }
      i := i + 1;
    }
    assert raw[..i] == raw;
  }

  /** The number of records whose value is truthy. */
  function TruthyCount(raw: seq<Record>): (n: nat)
    ensures n <= |raw|
  {
    if raw == [] then 0
    else TruthyCount(raw[..|raw| - 1]) + (if Truthy(raw[|raw| - 1].value) then 1 else 0)
  }

  /**
   * Cleaning keeps exactly the records with a truthy value: one output per
   * such record, each stamped with the extraction time, with a truthy
   * value and a `raw_data` that is absent or non-empty.
   */
  lemma {:induction false} CleanedContents(raw: seq<Record>, now: string)
    ensures |Cleaned(raw, now)| == TruthyCount(raw)
    ensures forall r :: r in Cleaned(raw, now) ==>
      Truthy(r.value) && r.extractedAt == Some(now) && (r.rawData.Some? ==> r.rawData.value != [])
  {
    if raw != [] {
      CleanedContents(raw[..|raw| - 1], now);
    }
  }

  /** Cleaning keeps the order: the cleaned records of two stretches follow one another. */
  lemma {:induction false} CleanedAppend(a: seq<Record>, b: seq<Record>, now: string)
    ensures Cleaned(a + b, now) == Cleaned(a, now) + Cleaned(b, now)
    decreases |b|
  {
    if b == [] {
      assert a + b == a;
    } else {
      assert (a + b)[..|a + b| - 1] == a + b[..|b| - 1];
      assert (a + b)[|a + b| - 1] == b[|b| - 1];
      CleanedAppend(a, b[..|b| - 1], now);
    }
  }

  /** Cleaning twice with the same time is cleaning once. */
  lemma {:induction false} CleanedIdempotent(raw: seq<Record>, now: string)
    ensures Cleaned(Cleaned(raw, now), now) == Cleaned(raw, now)
  {
    if raw != [] {
      var init := raw[..|raw| - 1];
      var last := raw[|raw| - 1];
      var tail := if Truthy(last.value) then [CleanRecord(last, now)] else [];
      CleanedAppend(Cleaned(init, now), tail, now);
      CleanedIdempotent(init, now);
      if Truthy(last.value) {
        assert [CleanRecord(last, now)][..0] == [];
        assert CleanRecord(CleanRecord(last, now), now) == CleanRecord(last, now);
      }
    }
  }

  // ---------------------------------------------------------- validate_data

  /** One error message of `validate_data`, by record index. */
  datatype Problem = InvalidValue(index: nat) | OutOfRange(index: nat, value: real)

  /** The dictionary `validate_data` returns. */
  datatype Validation = Validation(total: nat, valid: nat, invalid: nat, errors: seq<Problem>)

  /** The check of record `i`: a falsy value is invalid, a value outside [0, 1000] out of range. */
  function Check(r: Record, i: nat): Option<Problem> {
    if !Truthy(r.value) then Some(InvalidValue(i))
    else if r.value.value < 0.0 || r.value.value > 1000.0 then Some(OutOfRange(i, r.value.value))
    else None
  }

  /** The errors of a sequence of records, in index order. */
  function Problems(data: seq<Record>): seq<Problem> {
    if data == [] then []
    else
      var p := Check(data[|data| - 1], |data| - 1);
      Problems(data[..|data| - 1]) + (if p.Some? then [p.value] else [])
  }

  /** The number of records that pass the check. */
  function ValidCount(data: seq<Record>): nat {
    if data == [] then 0
    else ValidCount(data[..|data| - 1]) + (if Check(data[|data| - 1], |data| - 1).None? then 1 else 0)
  }

  /** `validate_data`. */
  method ValidateData(data: seq<Record>) returns (report: Validation)
    ensures report == Validation(|data|, ValidCount(data), |Problems(data)|, Problems(data))
  {
    report := Validation(|data|, 0, 0, []);
    var i := 0;
    while i < |data|
      invariant 0 <= i <= |data|
      invariant report == Validation(|data|, ValidCount(data[..i]), |Problems(data[..i])|, Problems(data[..i]))
    {
      assert data[..i + 1][..i] == data[..i];
      var value := data[i].value;
      var isValid := true;
      var errors := report.errors;
      if !Truthy(value) {
        errors := errors + [InvalidValue(i)];
        isValid := false;
      } else if value.value < 0.0 || value.value > 1000.0 {
        errors := errors + [OutOfRange(i, value.value)];
        isValid := false;
      }
      if isValid {
        report := report.(valid := report.valid + 1, errors := errors);
      } else {
        report := report.(invalid := report.invalid + 1, errors := errors);
      }
      i := i + 1;
    }
    assert data[..i] == data;
  }

  /** A record passes exactly when its value is present and lies in (0, 1000]. */
  lemma CheckPassesIff(r: Record, i: nat)
    ensures Check(r, i).None? <==> r.value.Some? && 0.0 < r.value.value <= 1000.0
    ensures Check(r, i).Some? ==> Check(r, i).value.index == i
  {
  }

  /**
   * The counts add up (valid + invalid = total), and the errors name every
   * invalid record once, in increasing index order.
   */
  lemma {:induction false} ProblemsIndexed(data: seq<Record>)
    ensures ValidCount(data) + |Problems(data)| == |data|
    ensures forall k :: 0 <= k < |Problems(data)| ==> Problems(data)[k].index < |data|
    ensures forall k, l :: 0 <= k < l < |Problems(data)| ==> Problems(data)[k].index < Problems(data)[l].index
    ensures forall i :: 0 <= i < |data| ==>
      (Check(data[i], i).None? <==> forall k :: 0 <= k < |Problems(data)| ==> Problems(data)[k].index != i)
  {
    if data != [] {
      var n := |data| - 1;
      var init := data[..n];
      ProblemsIndexed(init);
      var p := Check(data[n], n);
      assert Problems(data) == Problems(init) + (if p.Some? then [p.value] else []);
      assert forall k :: 0 <= k < |Problems(init)| ==> Problems(data)[k] == Problems(init)[k];
      assert forall k :: |Problems(init)| <= k < |Problems(data)| ==> Problems(data)[k] == p.value && p.value.index == n;
      forall i | 0 <= i < |data|
        ensures Check(data[i], i).None? <==> forall k :: 0 <= k < |Problems(data)| ==> Problems(data)[k].index != i
      {
        if i < n {
          assert data[i] == init[i];
        } else if p.Some? {
          assert Problems(data)[|Problems(init)|].index == i;
        }
      }
    }
  }

  /** After cleaning no value is falsy, so the only errors left are values out of range. */
  lemma CleanedHasOnlyRangeErrors(raw: seq<Record>, now: string)
    ensures forall p :: p in Problems(Cleaned(raw, now)) ==> p.OutOfRange?
  {
    CleanedContents(raw, now);
    NoFalsyNoInvalid(Cleaned(raw, now));
  }

  lemma {:induction false} NoFalsyNoInvalid(data: seq<Record>)
    requires forall r :: r in data ==> Truthy(r.value)
    ensures forall p :: p in Problems(data) ==> p.OutOfRange?
  {
    if data != [] {
      assert forall r :: r in data[..|data| - 1] ==> r in data;
      NoFalsyNoInvalid(data[..|data| - 1]);
    }
  }

  // -------------------------------------------------------- generate_summary

  /** The dictionary `generate_summary` returns. */
  datatype Summary =
    | Message(text: string)
    | Stats(total: nat, average: real, minimum: real, maximum: real, earliest: Option<string>, latest: Option<string>)

  /** The truthy values, in record order. */
  function Values(data: seq<Record>): seq<real> {
    if data == [] then []
    else Values(data[..|data| - 1]) + (if Truthy(data[|data| - 1].value) then [data[|data| - 1].value.value] else [])
  }

  /** The truthy timestamps, in record order. */
  function Datetimes(data: seq<Record>): seq<string> {
    if data == [] then []
    else
      var d := data[|data| - 1].datetime;
      Datetimes(data[..|data| - 1]) + (if TruthyText(d) then [d.value] else [])
  }

  function Sum(xs: seq<real>): real {
    if xs == [] then 0.0 else Sum(xs[..|xs| - 1]) + xs[|xs| - 1]
  }

  /** Python's `min` of a non-empty list of numbers. */
  function Min(xs: seq<real>): (m: real)
    requires xs != []
    ensures m in xs && forall x :: x in xs ==> m <= x
  {
    if |xs| == 1 then xs[0]
    else
      var m := Min(xs[..|xs| - 1]);
      assert forall x :: x in xs ==> x in xs[..|xs| - 1] || x == xs[|xs| - 1];
      if xs[|xs| - 1] < m then xs[|xs| - 1] else m
  }

  /** Python's `max` of a non-empty list of numbers. */
  function Max(xs: seq<real>): (m: real)
    requires xs != []
    ensures m in xs && forall x :: x in xs ==> x <= m
  {
    if |xs| == 1 then xs[0]
    else
      var m := Max(xs[..|xs| - 1]);
      assert forall x :: x in xs ==> x in xs[..|xs| - 1] || x == xs[|xs| - 1];
      if xs[|xs| - 1] > m then xs[|xs| - 1] else m
  }

  /** A sum lies between the count times the least and the count times the greatest element. */
  lemma {:induction false} SumBounds(xs: seq<real>, lo: real, hi: real)
    requires forall i :: 0 <= i < |xs| ==> lo <= xs[i] <= hi
    ensures |xs| as real * lo <= Sum(xs) <= |xs| as real * hi
  {
    if xs != [] {
      var init := xs[..|xs| - 1];
      assert forall i :: 0 <= i < |init| ==> init[i] == xs[i];
      SumBounds(init, lo, hi);
      assert |xs| as real * lo == |init| as real * lo + lo;
      assert |xs| as real * hi == |init| as real * hi + hi;
    }
  }

  /** Dividing bounds `n * lo <= s <= n * hi` by a positive `n`. */
  lemma DivideBounds(s: real, n: real, lo: real, hi: real)
    requires n > 0.0 && n * lo <= s <= n * hi
    ensures lo <= s / n <= hi
  {
    assert (s / n) * n == s;
  }

  /** Bounds on the elements bound the average. */
  lemma AverageBounds(xs: seq<real>, lo: real, hi: real)
    requires xs != []
    requires forall i :: 0 <= i < |xs| ==> lo <= xs[i] <= hi
    ensures lo <= Sum(xs) / |xs| as real <= hi
  {
    SumBounds(xs, lo, hi);
    DivideBounds(Sum(xs), |xs| as real, lo, hi);
  }

  lemma ElementsBetween(xs: seq<real>)
    requires xs != []
    ensures forall i :: 0 <= i < |xs| ==> Min(xs) <= xs[i] <= Max(xs)
  {
    forall i | 0 <= i < |xs| ensures Min(xs) <= xs[i] <= Max(xs) {
      assert xs[i] in xs;
    }
  }

  /** The average of a non-empty list lies between its minimum and its maximum. */
  lemma AverageBetween(xs: seq<real>)
    requires xs != []
    ensures Min(xs) <= Sum(xs) / |xs| as real <= Max(xs)
  {
    ElementsBetween(xs);
    AverageBounds(xs, Min(xs), Max(xs));
  }

  /** Python's `<=` on strings: code point by code point, a proper prefix first. */
  predicate TextLe(a: string, b: string) {
    a == [] || (b != [] && (a[0] < b[0] || (a[0] == b[0] && TextLe(a[1..], b[1..]))))
  }

  lemma {:induction false} TextLeTotal(a: string, b: string)
    ensures TextLe(a, b) || TextLe(b, a)
  {
    if a != [] && b != [] && a[0] == b[0] {
      TextLeTotal(a[1..], b[1..]);
    }
  }

  lemma {:induction false} TextLeTransitive(a: string, b: string, c: string)
    requires TextLe(a, b) && TextLe(b, c)
    ensures TextLe(a, c)
  {
    if a != [] && b != [] && c != [] && a[0] == b[0] && b[0] == c[0] {
      TextLeTransitive(a[1..], b[1..], c[1..]);
    }
  }

  /** Python's `min` of a non-empty list of strings. */
  function MinText(xs: seq<string>): (m: string)
    requires xs != []
    ensures m in xs && forall x :: x in xs ==> TextLe(m, x)
  {
    if |xs| == 1 then
      TextLeRefl(xs[0]);
      xs[0]
    else
      var m := MinText(xs[..|xs| - 1]);
      var last := xs[|xs| - 1];
      assert forall x :: x in xs ==> x in xs[..|xs| - 1] || x == last;
      TextLeTotal(m, last);
      TextLeRefl(last);
      if TextLe(m, last) then m
      else
        assert forall x :: x in xs[..|xs| - 1] ==> TextLe(last, x) by {
          forall x | x in xs[..|xs| - 1] ensures TextLe(last, x) {
            TextLeTransitive(last, m, x);
          }
        }
        last
  }

  /** Python's `max` of a non-empty list of strings. */
  function MaxText(xs: seq<string>): (m: string)
    requires xs != []
    ensures m in xs && forall x :: x in xs ==> TextLe(x, m)
  {
    if |xs| == 1 then
      TextLeRefl(xs[0]);
      xs[0]
    else
      var m := MaxText(xs[..|xs| - 1]);
      var last := xs[|xs| - 1];
      assert forall x :: x in xs ==> x in xs[..|xs| - 1] || x == last;
      TextLeTotal(m, last);
      TextLeRefl(last);
      if TextLe(last, m) then m
      else
        assert forall x :: x in xs[..|xs| - 1] ==> TextLe(x, last) by {
          forall x | x in xs[..|xs| - 1] ensures TextLe(x, last) {
            TextLeTransitive(x, m, last);
          }
        }
        last
  }

  lemma {:induction false} TextLeRefl(a: string)
    ensures TextLe(a, a)
  {
    if a != [] {
      TextLeRefl(a[1..]);
    }
  }

  /**
   * `generate_summary`: a message for no records or no truthy value;
   * otherwise the count, the average lying between the minimum and the
   * maximum (both values of the list), and the string-order earliest and
   * latest timestamps, absent together when no record has one.
   */
  function GenerateSummary(data: seq<Record>): (s: Summary)
    ensures data == [] ==> s == Message("No data to summarize")
    ensures data != [] && Values(data) == [] ==> s == Message("No valid blood sugar values found")
    ensures Values(data) != [] ==> s.Stats?
    ensures s.Stats? ==>
      && s.total == |Values(data)| > 0
      && s.minimum in Values(data) && s.maximum in Values(data)
      && (forall v :: v in Values(data) ==> s.minimum <= v <= s.maximum)
      && s.average == Sum(Values(data)) / s.total as real
      && s.minimum <= s.average <= s.maximum
    ensures s.Stats? ==>
      && (s.earliest.None? <==> Datetimes(data) == [])
      && (s.latest.None? <==> Datetimes(data) == [])
      && (s.earliest.Some? ==> s.earliest.value in Datetimes(data) && s.latest.value in Datetimes(data)
                               && TextLe(s.earliest.value, s.latest.value)
                               && forall d :: d in Datetimes(data) ==> TextLe(s.earliest.value, d) && TextLe(d, s.latest.value))
  {
    if data == [] then Message("No data to summarize")
    else
      var values := Values(data);
      if values == [] then Message("No valid blood sugar values found")
      else
        AverageBetween(values);
        var stamps := Datetimes(data);
        var earliest := if stamps == [] then None else Some(MinText(stamps));
        var latest := if stamps == [] then None else Some(MaxText(stamps));
        Stats(|values|, Sum(values) / |values| as real, Min(values), Max(values), earliest, latest)
  }

  // ------------------------------------------------------ retry_on_exception

  /** What one call of the wrapped function does. */
  datatype Outcome<T, E> = Returned(value: T) | Raised(error: E)

  /** How `retry_on_exception` ends: a value, an exception it lets out, or `None` without any call. */
  datatype RetryResult<T, E> = Success(value: T) | Failure(error: E) | NoResult

  /**
   * `retry_on_exception`: `call(k)` is what the `k`-th call of `func` does;
   * `caught(e)` says whether `e` is one of the `exceptions` to retry on.
   * The delay between attempts is left out.
   */
  method RetryOnException<T, E>(call: nat -> Outcome<T, E>, maxRetries: int, caught: E -> bool)
    returns (result: RetryResult<T, E>, calls: nat)
    ensures maxRetries <= 0 ==> result == NoResult && calls == 0
    ensures maxRetries > 0 ==> 1 <= calls <= maxRetries && !result.NoResult?
    ensures forall k :: 0 <= k < calls - 1 ==> call(k).Raised? && caught(call(k).error)
    ensures result.Success? ==> call(calls - 1) == Returned(result.value)
    ensures result.Failure? ==> call(calls - 1) == Raised(result.error)
                                && (!caught(result.error) || calls == maxRetries)
    ensures calls > 0 && call(calls - 1).Raised? && caught(call(calls - 1).error) ==> calls == maxRetries
  {
    var attempt := 0;
    while attempt < maxRetries
      invariant 0 <= attempt && (maxRetries > 0 ==> attempt < maxRetries)
      invariant forall k :: 0 <= k < attempt ==> call(k).Raised? && caught(call(k).error)
    {
      match call(attempt)
      case Returned(v) =>
        return Success(v), attempt + 1;
      case Raised(e) =>
        if !caught(e) || attempt == maxRetries - 1 {
          return Failure(e), attempt + 1;
        }
      attempt := attempt + 1;
    }
    return NoResult, 0;
  }
}
