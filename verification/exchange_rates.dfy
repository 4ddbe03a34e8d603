/** `transform_json_to_csv_rows` of the exchange-rate loader: the decoded API
    response `{"base": ..., "rates": {currency: value, ...}, ...}` becomes one
    row per rate whose value `float()` accepts, stamped with the base currency
    and with the date that was requested.  `float()` itself is a parameter: a
    partial conversion that either yields a value or raises `ValueError` or
    `TypeError`, which the loop catches and skips. */
module ExchangeRates {
  import opened Wrappers

  /** A decoded JSON value.  An object holds the entries of the Python dict
      `json` builds from it, in insertion order; a dict has no repeated keys,
      which the lemmas that need it state as `DistinctKeys`. */
  datatype Json =
    | Null
    | Bool(b: bool)
    | Num(x: real)
    | Str(s: string)
    | Arr(items: seq<Json>)
    | Obj(entries: seq<(string, Json)>)

  /** Python's truth value of a decoded JSON value. */
  predicate Truthy(j: Json) {
    match j
    case Null => false
    case Bool(b) => b
    case Num(x) => x != 0.0
    case Str(s) => s != ""
    case Arr(items) => items != []
    case Obj(entries) => entries != []
  }

  predicate DistinctKeys(entries: seq<(string, Json)>) {
    forall i, j :: 0 <= i < j < |entries| ==> entries[i].0 != entries[j].0
  }

  function KeySet(entries: seq<(string, Json)>): set<string> {
    set e | e in entries :: e.0
  }

  /** `dict.get(key)`: the value stored under `key`, `None` when it is absent. */
  function Get(entries: seq<(string, Json)>, key: string): (r: Option<Json>)
    ensures r.Some? <==> key in KeySet(entries)
    ensures r.Some? ==> (key, r.value) in entries
  {
    if entries == [] then None
    else if entries[0].0 == key then Some(entries[0].1)
    else
      assert KeySet(entries) == {entries[0].0} + KeySet(entries[1..]) by {
        assert entries == [entries[0]] + entries[1..];
      }
      Get(entries[1..], key)
  }

  /** One dict appended to `transformed_rows`. */
  datatype RateRow<F> = RateRow(fromCurrency: Json, toCurrency: string, exchangeRate: F, effectiveDate: string)

  /** What the function raises instead of returning: calling `.get` or
      `.items()` on something that is not a dict. */
  datatype TransformError = AttributeError

  /** The rows the loop over `conversion_rates.items()` has appended after
      visiting `entries`: one per entry whose value converts, in order. */
  function FlattenRates<F>(base: Json, date: string, entries: seq<(string, Json)>, toFloat: Json -> Option<F>)
    : (rows: seq<RateRow<F>>)
    ensures |rows| <= |entries|
    ensures forall k :: 0 <= k < |rows| ==> rows[k].fromCurrency == base && rows[k].effectiveDate == date
    ensures forall k :: 0 <= k < |rows| ==> rows[k].toCurrency in KeySet(entries)
    decreases |entries|
  {
    if entries == [] then []
    else
      var prefix := entries[..|entries| - 1];
      var (currency, rate) := entries[|entries| - 1];
      assert KeySet(entries) == KeySet(prefix) + {currency} by {
        assert entries == prefix + [(currency, rate)];
      }
      FlattenRates(base, date, prefix, toFloat)
        + (match toFloat(rate)
           case Some(x) => [RateRow(base, currency, x, date)]
           case None => [])
  }

  /** The whole function: the empty list when the response or its `base` is
      missing or falsy, a missing `rates` read as `{}`, and an error when the
      response or its `rates` is present but not a dict. */
  function TransformSpec<F>(data: Json, requestedDate: string, toFloat: Json -> Option<F>)
    : (r: Result<seq<RateRow<F>>, TransformError>)
    ensures !Truthy(data) ==> r == Ok([])
    ensures Truthy(data) && !data.Obj? ==> r.Err?
    ensures data.Obj? && (Get(data.entries, "base").None? || !Truthy(Get(data.entries, "base").value)) ==> r == Ok([])
    ensures data.Obj? && Get(data.entries, "rates").None? ==> r == Ok([])
    ensures r.Ok? ==> forall k :: 0 <= k < |r.value| ==> r.value[k].effectiveDate == requestedDate
  {
    if !Truthy(data) then Ok([])
    else if !data.Obj? then Err(AttributeError)
    else
      var base := Get(data.entries, "base");
      if base.None? || !Truthy(base.value) then Ok([])
      else
        match Get(data.entries, "rates")
        case None => Ok(FlattenRates(base.value, requestedDate, [], toFloat))
        case Some(Obj(rates)) => Ok(FlattenRates(base.value, requestedDate, rates, toFloat))
        case Some(_) => Err(AttributeError)
  }

  /** `transform_json_to_csv_rows(raw_json_data, requested_date)`. */
  method TransformJsonToCsvRows<F>(data: Json, requestedDate: string, toFloat: Json -> Option<F>)
      returns (r: Result<seq<RateRow<F>>, TransformError>)
    ensures r == TransformSpec(data, requestedDate, toFloat)
  {
    var transformedRows := [];
    if Truthy(data) {
      if !data.Obj? {
        return Err(AttributeError);
      }
      var base := Get(data.entries, "base");
      if base.Some? && Truthy(base.value) {
        var conversionRates := Get(data.entries, "rates");
        var rates := if conversionRates.Some? then conversionRates.value else Obj([]);
        if !rates.Obj? {
          return Err(AttributeError);
        }
        var i := 0;
        while i < |rates.entries|
          invariant 0 <= i <= |rates.entries|
          invariant transformedRows == FlattenRates(base.value, requestedDate, rates.entries[..i], toFloat)
        {
          var (toCurrency, rate) := rates.entries[i];
          assert rates.entries[..i + 1][..i] == rates.entries[..i];
          var value := toFloat(rate);
          if value.Some? {
            transformedRows := transformedRows + [RateRow(base.value, toCurrency, value.value, requestedDate)];
          }
          i := i + 1;
        }
        assert rates.entries[..i] == rates.entries;
      }
    }
    return Ok(transformedRows);
  }

  // ---------------------------------------------------------------------
  // The rows as a filter-map over the rate entries
  // ---------------------------------------------------------------------

  /** The entries whose value converts, in their order (defined from the
      front, independently of `FlattenRates`). */
  function Convertible<F>(entries: seq<(string, Json)>, toFloat: Json -> Option<F>): (c: seq<(string, Json)>)
    ensures |c| <= |entries|
    ensures forall e :: e in c ==> e in entries && toFloat(e.1).Some?
  {
    if entries == [] then []
    else (if toFloat(entries[0].1).Some? then [entries[0]] else []) + Convertible(entries[1..], toFloat)
  }

  lemma {:induction false} ConvertibleSnoc<F>(entries: seq<(string, Json)>, e: (string, Json), toFloat: Json -> Option<F>)
    ensures Convertible(entries + [e], toFloat)
         == Convertible(entries, toFloat) + (if toFloat(e.1).Some? then [e] else [])
  {
    if entries != [] {
      assert (entries + [e])[1..] == entries[1..] + [e];
      ConvertibleSnoc(entries[1..], e, toFloat);
    } else {
      assert [e][1..] == [];
    }
  }

  /** The rows are exactly the convertible entries, in the same order, each
      turned into a row of the base currency, its own key, its converted value
      and the requested date. */
  lemma {:induction false} FlattenIsFilterMap<F>(base: Json, date: string, entries: seq<(string, Json)>, toFloat: Json -> Option<F>)
    ensures |FlattenRates(base, date, entries, toFloat)| == |Convertible(entries, toFloat)|
    ensures forall k :: 0 <= k < |Convertible(entries, toFloat)| ==>
      FlattenRates(base, date, entries, toFloat)[k]
        == RateRow(base, Convertible(entries, toFloat)[k].0, toFloat(Convertible(entries, toFloat)[k].1).value, date)
    decreases |entries|
  {
    if entries != [] {
      var prefix := entries[..|entries| - 1];
      var e := entries[|entries| - 1];
      assert entries == prefix + [e];
      ConvertibleSnoc(prefix, e, toFloat);
      FlattenIsFilterMap(base, date, prefix, toFloat);
    }
  }

  /** No entry is lost: every entry whose value converts yields its row. */
  lemma {:induction false} FlattenComplete<F>(base: Json, date: string, entries: seq<(string, Json)>, toFloat: Json -> Option<F>, j: nat)
    requires j < |entries| && toFloat(entries[j].1).Some?
    ensures RateRow(base, entries[j].0, toFloat(entries[j].1).value, date) in FlattenRates(base, date, entries, toFloat)
    decreases |entries|
  {
    var prefix := entries[..|entries| - 1];
    if j < |entries| - 1 {
      assert prefix[j] == entries[j];
      FlattenComplete(base, date, prefix, toFloat, j);
    }
  }

  /** No row is invented: every row comes from an entry with its key whose
      value converts to the row's rate. */
  lemma {:induction false} FlattenSound<F>(base: Json, date: string, entries: seq<(string, Json)>, toFloat: Json -> Option<F>, k: nat)
    requires k < |FlattenRates(base, date, entries, toFloat)|
    ensures exists j :: (0 <= j < |entries|
                         && entries[j].0 == FlattenRates(base, date, entries, toFloat)[k].toCurrency
                         && toFloat(entries[j].1) == Some(FlattenRates(base, date, entries, toFloat)[k].exchangeRate))
    decreases |entries|
  {
    var prefix := entries[..|entries| - 1];
    var rows := FlattenRates(base, date, entries, toFloat);
    if k < |FlattenRates(base, date, prefix, toFloat)| {
      FlattenSound(base, date, prefix, toFloat, k);
      var j :| 0 <= j < |prefix|
        && prefix[j].0 == rows[k].toCurrency && toFloat(prefix[j].1) == Some(rows[k].exchangeRate);
      assert entries[j] == prefix[j];
    } else {
      assert entries[|entries| - 1].0 == rows[k].toCurrency;
    }
  }

  /** At most one row per entry, and one for every entry exactly when every
      value converts. */
  lemma {:induction false} FlattenLength<F>(base: Json, date: string, entries: seq<(string, Json)>, toFloat: Json -> Option<F>)
    ensures |FlattenRates(base, date, entries, toFloat)| == |entries|
        <==> forall j :: 0 <= j < |entries| ==> toFloat(entries[j].1).Some?
    decreases |entries|
  {
    if entries != [] {
      var prefix := entries[..|entries| - 1];
      FlattenLength(base, date, prefix, toFloat);
      assert forall j :: 0 <= j < |prefix| ==> prefix[j] == entries[j];
    }
  }

  /** Keys of a dict are distinct, so the rows of one response name each
      target currency at most once. */
  lemma {:induction false} FlattenDistinct<F>(base: Json, date: string, entries: seq<(string, Json)>, toFloat: Json -> Option<F>)
    requires DistinctKeys(entries)
    ensures forall k, l :: 0 <= k < l < |FlattenRates(base, date, entries, toFloat)| ==>
      FlattenRates(base, date, entries, toFloat)[k].toCurrency != FlattenRates(base, date, entries, toFloat)[l].toCurrency
    decreases |entries|
  {
    if entries != [] {
      var prefix := entries[..|entries| - 1];
      var last := entries[|entries| - 1];
      assert DistinctKeys(prefix) by {
        assert forall i :: 0 <= i < |prefix| ==> prefix[i] == entries[i];
      }
      FlattenDistinct(base, date, prefix, toFloat);
      assert last.0 !in KeySet(prefix) by {
        forall e | e in prefix
          ensures e.0 != last.0
        {
          var i :| 0 <= i < |prefix| && prefix[i] == e;
          assert entries[i] == e;
        }
      }
    }
  }

  /** For a dict, each row's rate is the converted value stored under its
      target currency. */
  lemma RateOfKey<F>(base: Json, date: string, entries: seq<(string, Json)>, toFloat: Json -> Option<F>, k: nat)
    requires DistinctKeys(entries) && k < |FlattenRates(base, date, entries, toFloat)|
    ensures Get(entries, FlattenRates(base, date, entries, toFloat)[k].toCurrency).Some?
    ensures toFloat(Get(entries, FlattenRates(base, date, entries, toFloat)[k].toCurrency).value)
         == Some(FlattenRates(base, date, entries, toFloat)[k].exchangeRate)
  {
    var row := FlattenRates(base, date, entries, toFloat)[k];
    FlattenSound(base, date, entries, toFloat, k);
    var j :| 0 <= j < |entries| && entries[j].0 == row.toCurrency && toFloat(entries[j].1) == Some(row.exchangeRate);
    GetDistinct(entries, j);
  }

  /** In a dict, looking up the key of an entry gives that entry's value. */
  lemma {:induction false} GetDistinct(entries: seq<(string, Json)>, j: nat)
    requires DistinctKeys(entries) && j < |entries|
    ensures Get(entries, entries[j].0) == Some(entries[j].1)
  {
    if j > 0 {
      assert entries[0].0 != entries[j].0;
      assert DistinctKeys(entries[1..]) by {
        assert forall i :: 0 <= i < |entries| - 1 ==> entries[1..][i] == entries[i + 1];
      }
      GetDistinct(entries[1..], j - 1);
    }
  }
}
