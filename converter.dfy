/**
  The code converter loader: folds the rows of the code file into a map from
  plot-library country code to World Bank country code
  (`build_country_code_converter`, main.py lines 6-23).

  Opening the file and splitting it into rows is left to the caller: the
  rows arrive already parsed, each one a map from column name to field.
 */
module CodeConverter {

  /** One parsed row of the code file: column name to field value. */
  type Row = map<string, string>

  /**
    The errors the reconciliation can raise. The loader raises only
    `MissingField`; `UnknownCode` belongs to the reconciler, which passes the
    loader's errors through, so both share one type.
   */
  datatype Error =
    | MissingField(row: nat, field: string)  // a row has no column of that name (a KeyError)
    | UnknownCode(code: string)              // a folded plot code has no index entry (a KeyError)

  datatype Result<T> = Ok(value: T) | Err(error: Error)

  /**
    A Python dictionary from plot code to data code. `codes` is the mapping;
    `order` lists its keys in the order the dictionary iterates them, which is
    the order in which each key was first inserted.
   */
  datatype Converter = Converter(order: seq<string>, codes: map<string, string>)

  /** The dictionary invariant: every key is listed exactly once in `order`. */
  ghost predicate Valid(c: Converter)
  {
    && (forall p, q :: 0 <= p < q < |c.order| ==> c.order[p] != c.order[q])
    && (forall k :: k in c.codes <==> k in c.order)
  }

  /**
    Every entry of `order` is a key: the part of `Valid` that makes lookups in
    order safe. The folded-index proofs require only this part, because the
    rest of `Valid` makes the solver's search there far more costly.
   */
  ghost predicate OrderInCodes(c: Converter)
  {
    forall p :: 0 <= p < |c.order| ==> c.order[p] in c.codes
  }

  /** The dictionary invariant gives every listed key a value. */
  lemma ValidOrderInCodes(c: Converter)
    requires Valid(c)
    ensures OrderInCodes(c)
  {
  }

  /** `converter[key] = value`: a new key goes to the end of the order, an old key keeps its place. */
  function Insert(c: Converter, key: string, value: string): (r: Converter)
    requires Valid(c)
    ensures Valid(r)
  {
    if key in c.codes then Converter(c.order, c.codes[key := value])
    else Converter(c.order + [key], c.codes[key := value])
  }

  /** Every row carries both named columns. */
  ghost predicate HasFields(rows: seq<Row>, plotField: string, dataField: string)
  {
    forall i :: 0 <= i < |rows| ==> plotField in rows[i] && dataField in rows[i]
  }

  /**
    The converter the rows describe, inserting row after row; the first row
    lacking the plot column, or else the data column, stops the load.
   */
  function ConverterOf(rows: seq<Row>, plotField: string, dataField: string): (r: Result<Converter>)
    ensures r.Ok? ==> Valid(r.value)
  {
    if rows == [] then Ok(Converter([], map[]))
    else
      var last := |rows| - 1;
      match ConverterOf(rows[..last], plotField, dataField)
      case Err(e) => Err(e)
      case Ok(c) =>
        if plotField !in rows[last] then Err(MissingField(last, plotField))
        else if dataField !in rows[last] then Err(MissingField(last, dataField))
        else Ok(Insert(c, rows[last][plotField], rows[last][dataField]))
  }

  /** Once a prefix of the rows fails to load, every longer run of rows fails the same way. */
  lemma {:induction false} ErrorPersists(rows: seq<Row>, n: nat, plotField: string, dataField: string)
    requires n <= |rows|
    requires ConverterOf(rows[..n], plotField, dataField).Err?
    ensures ConverterOf(rows, plotField, dataField) == ConverterOf(rows[..n], plotField, dataField)
  {
    if n < |rows| {
      var last := |rows| - 1;
      assert rows[..last][..n] == rows[..n];
      ErrorPersists(rows[..last], n, plotField, dataField);
    } else {
      assert rows[..n] == rows;
    }
  }

  /** `build_country_code_converter`: a loop over the rows that fills the dictionary. */
  method BuildCountryCodeConverter(rows: seq<Row>, plotField: string, dataField: string)
    returns (r: Result<Converter>)
    ensures r == ConverterOf(rows, plotField, dataField)
  {
    var order: seq<string> := [];
    var converter: map<string, string> := map[];
    var i := 0;
    while i < |rows|
      invariant 0 <= i <= |rows|
      invariant ConverterOf(rows[..i], plotField, dataField) == Ok(Converter(order, converter))
    {
      assert rows[..i + 1][..i] == rows[..i];
      var row := rows[i];
      if plotField !in row {
        ErrorPersists(rows, i + 1, plotField, dataField);
        return Err(MissingField(i, plotField));
      }
      var plotCode := row[plotField];
      if dataField !in row {
        ErrorPersists(rows, i + 1, plotField, dataField);
        return Err(MissingField(i, dataField));
      }
      if plotCode !in converter {
        order := order + [plotCode];
      }
      converter := converter[plotCode := row[dataField]];
      i := i + 1;
    }
    assert rows[..i] == rows;
    return Ok(Converter(order, converter));
  }

  /** Loading succeeds exactly when every row carries both named columns: no row is skipped. */
  lemma {:induction false} LoadSucceedsIff(rows: seq<Row>, plotField: string, dataField: string)
    ensures ConverterOf(rows, plotField, dataField).Ok? <==> HasFields(rows, plotField, dataField)
  {
    if rows != [] {
      var last := |rows| - 1;
      LoadSucceedsIff(rows[..last], plotField, dataField);
      assert forall i :: 0 <= i < last ==> rows[..last][i] == rows[i];
    }
  }

  /**
    A failed load names the first row lacking a column, and the plot column
    when that one is missing, the data column otherwise.
   */
  lemma {:induction false} LoadFailsAtFirstBadRow(rows: seq<Row>, plotField: string, dataField: string)
    requires ConverterOf(rows, plotField, dataField).Err?
    ensures ConverterOf(rows, plotField, dataField).error.MissingField?
    ensures var e := ConverterOf(rows, plotField, dataField).error;
      && e.row < |rows|
      && HasFields(rows[..e.row], plotField, dataField)
      && e.field == (if plotField !in rows[e.row] then plotField else dataField)
      && (plotField in rows[e.row] ==> dataField !in rows[e.row])
  {
    var last := |rows| - 1;
    var init := rows[..last];
    if ConverterOf(init, plotField, dataField).Err? {
      LoadFailsAtFirstBadRow(init, plotField, dataField);
      var e := ConverterOf(init, plotField, dataField).error;
      assert rows[..e.row] == init[..e.row];
    } else {
      LoadSucceedsIff(init, plotField, dataField);
    }
  }

  /** A loaded converter is the converter of all rows but the last, with the last row inserted. */
  lemma LoadStep(rows: seq<Row>, plotField: string, dataField: string)
    requires rows != [] && HasFields(rows, plotField, dataField)
    ensures HasFields(rows[..|rows| - 1], plotField, dataField)
    ensures ConverterOf(rows[..|rows| - 1], plotField, dataField).Ok?
    ensures ConverterOf(rows, plotField, dataField)
      == Ok(Insert(ConverterOf(rows[..|rows| - 1], plotField, dataField).value,
                   rows[|rows| - 1][plotField], rows[|rows| - 1][dataField]))
  {
  }

  /** The keys of a loaded converter are exactly the plot codes of the rows. */
  lemma {:induction false} ConverterKeys(rows: seq<Row>, plotField: string, dataField: string)
    requires HasFields(rows, plotField, dataField)
    ensures ConverterOf(rows, plotField, dataField).Ok?
    ensures forall k :: (k in ConverterOf(rows, plotField, dataField).value.codes
      <==> exists i :: 0 <= i < |rows| && rows[i][plotField] == k)
  {
    LoadSucceedsIff(rows, plotField, dataField);
    if rows != [] {
      var last := |rows| - 1;
      var init := rows[..last];
      LoadStep(rows, plotField, dataField);
      ConverterKeys(init, plotField, dataField);
      var codes := ConverterOf(rows, plotField, dataField).value.codes;
      var codes0 := ConverterOf(init, plotField, dataField).value.codes;
      assert codes == codes0[rows[last][plotField] := rows[last][dataField]];
      forall k
        ensures k in codes <==> exists i :: 0 <= i < |rows| && rows[i][plotField] == k
      {
        if k in codes && k != rows[last][plotField] {
          var i :| 0 <= i < last && init[i][plotField] == k;
          assert rows[i][plotField] == k;
        }
        if k !in codes {
          forall i | 0 <= i < |rows|
            ensures rows[i][plotField] != k
          {
            if i < last {
              assert init[i] == rows[i];
            }
          }
        }
      }
    }
  }

  /** Each key of a loaded converter maps to the data code of the last row carrying that plot code. */
  lemma {:induction false} ConverterLastRowWins(rows: seq<Row>, plotField: string, dataField: string, i: nat)
    requires HasFields(rows, plotField, dataField)
    requires i < |rows|
    requires forall j :: i < j < |rows| ==> rows[j][plotField] != rows[i][plotField]
    ensures ConverterOf(rows, plotField, dataField).Ok?
    ensures var c := ConverterOf(rows, plotField, dataField).value;
      rows[i][plotField] in c.codes && c.codes[rows[i][plotField]] == rows[i][dataField]
  {
    LoadStep(rows, plotField, dataField);
    var last := |rows| - 1;
    if i < last {
      var init := rows[..last];
      assert init[i] == rows[i];
      forall j | i < j < |init|
        ensures init[j][plotField] != init[i][plotField]
      {
        assert init[j] == rows[j];
      }
      ConverterLastRowWins(init, plotField, dataField, i);
    }
  }

  /**
    The dictionary iterates its keys in the order their plot codes first occur
    in the rows: an earlier key occurs in some row before any row carrying a
    later key.
   */
  lemma {:induction false} ConverterOrderIsFirstOccurrence(rows: seq<Row>, plotField: string, dataField: string)
    requires HasFields(rows, plotField, dataField)
    ensures ConverterOf(rows, plotField, dataField).Ok?
    ensures var c := ConverterOf(rows, plotField, dataField).value;
      forall p, q :: 0 <= p < q < |c.order| ==> FirstSeenBefore(rows, plotField, c.order[p], c.order[q])
  {
    LoadSucceedsIff(rows, plotField, dataField);
    if rows != [] {
      var last := |rows| - 1;
      var init := rows[..last];
      LoadStep(rows, plotField, dataField);
      ConverterOrderIsFirstOccurrence(init, plotField, dataField);
      ConverterKeys(init, plotField, dataField);
      var c := ConverterOf(rows, plotField, dataField).value;
      var c0 := ConverterOf(init, plotField, dataField).value;
      var key := rows[last][plotField];
      forall p, q | 0 <= p < q < |c.order|
        ensures FirstSeenBefore(rows, plotField, c.order[p], c.order[q])
      {
        if q < |c0.order| {
          assert c.order[p] == c0.order[p] && c.order[q] == c0.order[q];
          FirstSeenBeforeExtends(init, rows, plotField, c0.order[p], c0.order[q]);
        } else {
          assert key !in c0.codes && c.order == c0.order + [key] && q == |c0.order|;
          assert c0.order[p] in c0.codes;
          var i :| 0 <= i < last && init[i][plotField] == c0.order[p];
          assert rows[i][plotField] == c.order[p];
          forall j | 0 <= j <= i
            ensures rows[j][plotField] != key
          {
            assert init[j] == rows[j];
          }
        }
      }
    }
  }

  /** Some row carries code `a` before any row carries code `b`. */
  ghost predicate FirstSeenBefore(rows: seq<Row>, plotField: string, a: string, b: string)
    requires forall i :: 0 <= i < |rows| ==> plotField in rows[i]
  {
    exists i :: 0 <= i < |rows| && rows[i][plotField] == a && NotSeenUpTo(rows, plotField, b, i)
  }

  /** No row up to and including row `i` carries code `b`. */
  ghost predicate NotSeenUpTo(rows: seq<Row>, plotField: string, b: string, i: nat)
    requires i < |rows| && forall j :: 0 <= j < |rows| ==> plotField in rows[j]
  {
    forall j :: 0 <= j <= i ==> rows[j][plotField] != b
  }

  /** Appending rows keeps an earlier first occurrence earlier. */
  lemma FirstSeenBeforeExtends(init: seq<Row>, rows: seq<Row>, plotField: string, a: string, b: string)
    requires init <= rows
    requires forall i :: 0 <= i < |rows| ==> plotField in rows[i]
    requires FirstSeenBefore(init, plotField, a, b)
    ensures FirstSeenBefore(rows, plotField, a, b)
  {
  }
}
