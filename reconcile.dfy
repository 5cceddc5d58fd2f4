/**
  The reconciler (`reconcile_countries_by_code`, main.py lines 26-65): a
  case-insensitive join of the plot library's country codes against the
  codes of the GDP table, through the code converter.

  The result is the pair the source returns as a tuple: a map from plot code
  to data code for the countries found in the GDP table, and the set of plot
  codes that were not found there.
 */
module Reconcile {
  import opened CaseFold
  import opened CodeConverter

  /** The returned pair: matched plot codes with their data codes, and the unmatched plot codes. */
  datatype Reconciliation = Reconciliation(matches: map<string, string>, unmatched: set<string>)

  /**
    The case-folded index built from the first `n` keys of the converter, in
    its iteration order: folded plot code to data code, a later key
    overwriting an earlier one that folds the same way.
   */
  function FoldedPrefix(c: Converter, n: nat): map<string, string>
    requires OrderInCodes(c) && n <= |c.order|
  {
    if n == 0 then map[]
    else
      var key := c.order[n - 1];
      FoldedPrefix(c, n - 1)[Fold(key) := c.codes[key]]
  }

  /** The case-folded index of the whole converter (`unify_convert`). */
  function FoldedIndex(c: Converter): map<string, string>
    requires Valid(c)
  {
    ValidOrderInCodes(c);
    FoldedPrefix(c, |c.order|)
  }

  /** The loop that fills `unify_convert` from the converter's items. */
  method BuildFoldedIndex(c: Converter) returns (index: map<string, string>)
    requires Valid(c)
    ensures index == FoldedIndex(c)
  {
    ValidOrderInCodes(c);
    index := map[];
    for i := 0 to |c.order|
      invariant index == FoldedPrefix(c, i)
    {
      var key := c.order[i];
      index := index[Fold(key) := c.codes[key]];
    }
  }

  /** The folded index has exactly the folds of the converter keys as its keys. */
  lemma {:induction false} FoldedPrefixKeys(c: Converter, n: nat)
    requires OrderInCodes(c) && n <= |c.order|
    ensures forall f :: f in FoldedPrefix(c, n) <==> exists p :: 0 <= p < n && Fold(c.order[p]) == f
  {
    if n > 0 {
      FoldedPrefixKeys(c, n - 1);
      var key := c.order[n - 1];
      assert FoldedPrefix(c, n) == FoldedPrefix(c, n - 1)[Fold(key) := c.codes[key]];
    }
  }

  /** Each entry of the folded index holds the data code of a converter key with that fold. */
  lemma {:induction false} FoldedPrefixValues(c: Converter, n: nat, f: string)
    requires OrderInCodes(c) && n <= |c.order|
    requires f in FoldedPrefix(c, n)
    ensures exists p :: 0 <= p < n && Fold(c.order[p]) == f && FoldedPrefix(c, n)[f] == c.codes[c.order[p]]
  {
    var key := c.order[n - 1];
    assert FoldedPrefix(c, n) == FoldedPrefix(c, n - 1)[Fold(key) := c.codes[key]];
    if f != Fold(key) {
      FoldedPrefixValues(c, n - 1, f);
    }
  }

  /**
    On a fold collision the key that comes later in the converter's iteration
    order wins: a key with no later key of the same fold owns its folded entry.
   */
  lemma {:induction false} FoldedPrefixLaterKeyWins(c: Converter, n: nat, p: nat)
    requires OrderInCodes(c) && p < n <= |c.order|
    requires forall q :: p < q < n ==> Fold(c.order[q]) != Fold(c.order[p])
    ensures Fold(c.order[p]) in FoldedPrefix(c, n)
    ensures FoldedPrefix(c, n)[Fold(c.order[p])] == c.codes[c.order[p]]
  {
    var key := c.order[n - 1];
    assert FoldedPrefix(c, n) == FoldedPrefix(c, n - 1)[Fold(key) := c.codes[key]];
    if p < n - 1 {
      FoldedPrefixLaterKeyWins(c, n - 1, p);
      assert Fold(key) != Fold(c.order[p]);
    }
  }

  /** The set of case-folded GDP keys (`gdp_set`); the GDP records themselves are never read. */
  function FoldedKeys<V>(gdp: map<string, V>): set<string>
  {
    set k | k in gdp :: Fold(k)
  }

  /** Every plot code has an entry in the folded index, so the lookup cannot fail. */
  ghost predicate Covers(index: map<string, string>, plotKeys: set<string>)
  {
    forall k :: k in plotKeys ==> Fold(k) in index
  }

  /** The plot codes whose converted code folds to a folded GDP key, each with its converted code. */
  function Matches(index: map<string, string>, plotKeys: set<string>, gdpFolded: set<string>): map<string, string>
  {
    map k | k in plotKeys && Fold(k) in index && Fold(index[Fold(k)]) in gdpFolded :: index[Fold(k)]
  }

  /** The plot codes whose converted code folds to no folded GDP key. */
  function Unmatched(index: map<string, string>, plotKeys: set<string>, gdpFolded: set<string>): set<string>
  {
    set k | k in plotKeys && Fold(k) in index && Fold(index[Fold(k)]) !in gdpFolded
  }

  /**
    The loop over the plot countries that fills `recon_dict` and `recon_set`.
    The source visits the keys in dictionary order; this model visits them in
    an unspecified order, which changes only which missing code is reported.
   */
  method PartitionPlotCountries(index: map<string, string>, plot: map<string, string>, gdpFolded: set<string>)
    returns (r: Result<Reconciliation>)
    ensures Covers(index, plot.Keys) ==>
      r == Ok(Reconciliation(Matches(index, plot.Keys, gdpFolded), Unmatched(index, plot.Keys, gdpFolded)))
    ensures !Covers(index, plot.Keys) ==>
      && r.Err? && r.error.UnknownCode? && r.error.code !in index
      && exists k :: k in plot && Fold(k) == r.error.code
  {
    var matches: map<string, string> := map[];
    var unmatched: set<string> := {};
    var remaining := plot.Keys;
    while remaining != {}
      invariant remaining <= plot.Keys
      invariant Covers(index, plot.Keys - remaining)
      invariant matches == Matches(index, plot.Keys - remaining, gdpFolded)
      invariant unmatched == Unmatched(index, plot.Keys - remaining, gdpFolded)
      decreases remaining
    {
      var plotKey :| plotKey in remaining;
      var lowercase := Fold(plotKey);
      if lowercase !in index {
        return Err(UnknownCode(lowercase));
      }
      ghost var done := plot.Keys - remaining;
      if Fold(index[lowercase]) in gdpFolded {
        matches := matches[plotKey := index[lowercase]];
      } else {
        unmatched := unmatched + {plotKey};
      }
      remaining := remaining - {plotKey};
      assert plot.Keys - remaining == done + {plotKey};
    }
    assert plot.Keys - remaining == plot.Keys;
    return Ok(Reconciliation(matches, unmatched));
  }

  /**
    `reconcile_countries_by_code`: load the converter, fold its keys into an
    index, fold the GDP keys, and partition the plot countries.
   */
  method ReconcileCountriesByCode<V>(rows: seq<Row>, plotField: string, dataField: string,
                                     plot: map<string, string>, gdp: map<string, V>)
    returns (r: Result<Reconciliation>)
    ensures ConverterOf(rows, plotField, dataField).Err? ==> r == Err(ConverterOf(rows, plotField, dataField).error)
    ensures ConverterOf(rows, plotField, dataField).Ok? ==>
      var index := FoldedIndex(ConverterOf(rows, plotField, dataField).value);
      && (Covers(index, plot.Keys) ==>
            r == Ok(Reconciliation(Matches(index, plot.Keys, FoldedKeys(gdp)),
                                   Unmatched(index, plot.Keys, FoldedKeys(gdp)))))
      && (!Covers(index, plot.Keys) ==>
            && r.Err? && r.error.UnknownCode? && r.error.code !in index
            && exists k :: k in plot && Fold(k) == r.error.code)
  {
    var convert := BuildCountryCodeConverter(rows, plotField, dataField);
    if convert.Err? {
      return Err(convert.error);
    }
    var unifyConvert := BuildFoldedIndex(convert.value);
    var gdpSet := FoldedKeys(gdp);
    r := PartitionPlotCountries(unifyConvert, plot, gdpSet);
  }

  /**
    The folded index has an entry for a plot code exactly when some converter
    key folds like it: this is what the reconciler needs of its caller.
   */
  lemma CoversIff(c: Converter, plotKeys: set<string>)
    requires Valid(c)
    ensures Covers(FoldedIndex(c), plotKeys) <==>
      forall k :: k in plotKeys ==> exists key :: key in c.codes && Fold(key) == Fold(k)
  {
    var index := FoldedIndex(c);
    ValidOrderInCodes(c);
    FoldedPrefixKeys(c, |c.order|);
    if forall k :: k in plotKeys ==> exists key :: key in c.codes && Fold(key) == Fold(k) {
      forall k | k in plotKeys
        ensures Fold(k) in index
      {
        var key :| key in c.codes && Fold(key) == Fold(k);
        var p :| 0 <= p < |c.order| && c.order[p] == key;
      }
    }
    if Covers(index, plotKeys) {
      forall k | k in plotKeys
        ensures exists key :: key in c.codes && Fold(key) == Fold(k)
      {
        var p :| 0 <= p < |c.order| && Fold(c.order[p]) == Fold(k);
        assert c.order[p] in c.codes;
      }
    }
  }

  /** Every plot code lands in exactly one of the two results, and nothing else does. */
  lemma ResultPartitionsPlotCodes(index: map<string, string>, plotKeys: set<string>, gdpFolded: set<string>)
    requires Covers(index, plotKeys)
    ensures Matches(index, plotKeys, gdpFolded).Keys !! Unmatched(index, plotKeys, gdpFolded)
    ensures Matches(index, plotKeys, gdpFolded).Keys + Unmatched(index, plotKeys, gdpFolded) == plotKeys
  {
  }

  /**
    A matched plot code is stored with the data code, in the converter's own
    casing, of a converter key that folds like it, and that data code folds
    like some GDP key.
   */
  lemma MatchedCodeFromConverter<V>(c: Converter, plotKeys: set<string>, gdp: map<string, V>, k: string)
    requires Valid(c)
    requires k in Matches(FoldedIndex(c), plotKeys, FoldedKeys(gdp))
    ensures var code := Matches(FoldedIndex(c), plotKeys, FoldedKeys(gdp))[k];
      && k in plotKeys
      && (exists key :: key in c.codes && Fold(key) == Fold(k) && code == c.codes[key])
      && (exists g :: g in gdp && Fold(g) == Fold(code))
  {
    var index := FoldedIndex(c);
    var code := index[Fold(k)];
    ValidOrderInCodes(c);
    FoldedPrefixValues(c, |c.order|, Fold(k));
    var p :| 0 <= p < |c.order| && Fold(c.order[p]) == Fold(k) && code == c.codes[c.order[p]];
    assert c.order[p] in c.codes;
  }

  /** A plot code is unmatched exactly when its converted code folds like no GDP key. */
  lemma UnmatchedIff<V>(index: map<string, string>, plotKeys: set<string>, gdp: map<string, V>, k: string)
    requires Covers(index, plotKeys)
    requires k in plotKeys
    ensures k in Unmatched(index, plotKeys, FoldedKeys(gdp)) <==>
      forall g :: g in gdp ==> Fold(g) != Fold(index[Fold(k)])
  {
  }

  /**
    Replacing a GDP key by another that folds the same way, with any record,
    leaves the reconciliation unchanged: only the folded GDP keys are consulted.
   */
  lemma GdpKeyCaseIrrelevant<V>(index: map<string, string>, plotKeys: set<string>,
                                gdp: map<string, V>, g: string, g': string, record: V)
    requires g in gdp && Fold(g') == Fold(g)
    ensures var gdp' := (gdp - {g})[g' := record];
      && Matches(index, plotKeys, FoldedKeys(gdp')) == Matches(index, plotKeys, FoldedKeys(gdp))
      && Unmatched(index, plotKeys, FoldedKeys(gdp')) == Unmatched(index, plotKeys, FoldedKeys(gdp))
  {
    var gdp' := (gdp - {g})[g' := record];
    forall f | f in FoldedKeys(gdp)
      ensures f in FoldedKeys(gdp')
    {
      var k :| k in gdp && Fold(k) == f;
      if k != g && k != g' {
        assert k in gdp';
      } else {
        assert g' in gdp';
      }
    }
    assert FoldedKeys(gdp') == FoldedKeys(gdp);
  }

  /**
    The matched and unmatched codes are plot keys in their own casing. That
    the country names never matter is read off `ReconcileCountriesByCode`,
    whose contract mentions the plot countries only through their key set.
   */
  lemma ResultKeepsPlotKeys(index: map<string, string>, plotKeys: set<string>, gdpFolded: set<string>)
    ensures Matches(index, plotKeys, gdpFolded).Keys <= plotKeys
    ensures Unmatched(index, plotKeys, gdpFolded) <= plotKeys
  {
  }

  /**
    Plot codes that differ only in letter case are treated alike: both land
    on the same side, and when matched they get the same data code.
   */
  lemma PlotKeyCaseIrrelevant(index: map<string, string>, plotKeys: set<string>, gdpFolded: set<string>,
                              k: string, k': string)
    requires Covers(index, plotKeys)
    requires k in plotKeys && k' in plotKeys
    requires |k| == |k'| && forall i :: 0 <= i < |k| ==> FoldChar(k[i]) == FoldChar(k'[i])
    ensures k in Matches(index, plotKeys, gdpFolded) <==> k' in Matches(index, plotKeys, gdpFolded)
    ensures k in Matches(index, plotKeys, gdpFolded) ==>
      Matches(index, plotKeys, gdpFolded)[k] == Matches(index, plotKeys, gdpFolded)[k']
    ensures k in Unmatched(index, plotKeys, gdpFolded) <==> k' in Unmatched(index, plotKeys, gdpFolded)
  {
    FoldIgnoresCase(k, k');
  }

  /** The folds of the codes the examples below use. */
  lemma FoldExamples()
    ensures Fold("BR") == "br" && Fold("br") == "br"
    ensures Fold("BRA") == "bra" && Fold("bra") == "bra"
    ensures Fold("US") == "us" && Fold("us") == "us"
  {
  }

  /** One code-file row: plot code "BR", data code "BRA". */
  function BrazilRows(): seq<Row>
  {
    [map["plot" := "BR", "data" := "BRA"]]
  }

  /** The row of the Brazil example loads into the converter "BR" -> "BRA". */
  lemma BrazilRowsLoad()
    ensures ConverterOf(BrazilRows(), "plot", "data") == Ok(Converter(["BR"], map["BR" := "BRA"]))
  {
    var rows := BrazilRows();
    assert "plot" != "data" by { assert "plot"[0] != "data"[0]; }
    assert rows[..0] == [];
    assert ConverterOf(rows[..0], "plot", "data") == Ok(Converter([], map[]));
    assert rows[0]["plot"] == "BR" && rows[0]["data"] == "BRA";
    assert [] + ["BR"] == ["BR"];
    assert Insert(Converter([], map[]), "BR", "BRA") == Converter(["BR"], map["BR" := "BRA"]);
  }

  /** The folded index of the Brazil example maps "br" to "BRA". */
  lemma BrazilIndex()
    ensures ConverterOf(BrazilRows(), "plot", "data").Ok?
    ensures FoldedIndex(ConverterOf(BrazilRows(), "plot", "data").value) == map["br" := "BRA"]
  {
    BrazilRowsLoad();
    FoldExamples();
    var c := Converter(["BR"], map["BR" := "BRA"]);
    assert FoldedPrefix(c, 1) == FoldedPrefix(c, 0)["br" := "BRA"];
  }

  /**
    A lower-case plot code "br" matches a converter row for "BR" whose data
    code "BRA" appears in the GDP table as "bra". The stored data code is the
    converter's "BRA", which is not itself a key of the GDP table.
   */
  lemma CaseInsensitiveMatchExample()
    ensures ConverterOf(BrazilRows(), "plot", "data").Ok?
    ensures var index := FoldedIndex(ConverterOf(BrazilRows(), "plot", "data").value);
      && Matches(index, {"br"}, FoldedKeys(map["bra" := 0])) == map["br" := "BRA"]
      && Unmatched(index, {"br"}, FoldedKeys(map["bra" := 0])) == {}
      && "BRA" !in map["bra" := 0]
  {
    BrazilIndex();
    FoldExamples();
    var index := map["br" := "BRA"];
    assert FoldedKeys(map["bra" := 0]) == {"bra"};
    assert "BRA" != "bra" by { assert "BRA"[0] != "bra"[0]; }
    assert Matches(index, {"br"}, {"bra"}) == map["br" := "BRA"];
    assert Unmatched(index, {"br"}, {"bra"}) == {};
  }

  /** Three code-file rows: "us"->"A", "US"->"B", "us"->"C". */
  function CollisionRows(): seq<Row>
  {
    [map["plot" := "us", "data" := "A"],
     map["plot" := "US", "data" := "B"],
     map["plot" := "us", "data" := "C"]]
  }

  /** The first two collision rows load into a dictionary iterating "us" then "US". */
  lemma CollisionPrefixLoads()
    ensures ConverterOf(CollisionRows()[..2], "plot", "data")
      == Ok(Converter(["us", "US"], map["us" := "A", "US" := "B"]))
  {
    var rows := CollisionRows()[..2];
    var r0, r1 := rows[0], rows[1];
    assert "plot" != "data" by { assert "plot"[0] != "data"[0]; }
    assert "us" != "US" by { assert "us"[0] != "US"[0]; }
    assert r0["plot"] == "us" && r0["data"] == "A" && r1["plot"] == "US" && r1["data"] == "B";
    assert rows[..1] == [r0] && rows[..1][..0] == [];
    assert ConverterOf([], "plot", "data") == Ok(Converter([], map[]));
    assert [] + ["us"] == ["us"];
    assert Insert(Converter([], map[]), "us", "A") == Converter(["us"], map["us" := "A"]);
    assert ConverterOf([r0], "plot", "data") == Ok(Converter(["us"], map["us" := "A"]));
    assert Insert(Converter(["us"], map["us" := "A"]), "US", "B") == Converter(["us", "US"], map["us" := "A", "US" := "B"]);
  }

  /** All three collision rows load into a dictionary iterating "us" then "US", with "us" -> "C". */
  lemma CollisionRowsLoad()
    ensures ConverterOf(CollisionRows(), "plot", "data")
      == Ok(Converter(["us", "US"], map["us" := "C", "US" := "B"]))
  {
    CollisionPrefixLoads();
    var rows := CollisionRows();
    assert "plot" != "data" by { assert "plot"[0] != "data"[0]; }
    assert rows[2]["plot"] == "us" && rows[2]["data"] == "C";
    var c2 := Converter(["us", "US"], map["us" := "A", "US" := "B"]);
    assert "us" in c2.codes;
    assert c2.codes["us" := "C"] == map["us" := "C", "US" := "B"];
  }

  /**
    On a fold collision the winner is decided by first insertion, not by the
    last row: with rows "us"->"A", "US"->"B", "us"->"C" the converter iterates
    "us" then "US", so the folded entry "us" holds "B" although "C" came last.
   */
  lemma FoldCollisionExample()
    ensures ConverterOf(CollisionRows(), "plot", "data").Ok?
    ensures var c := ConverterOf(CollisionRows(), "plot", "data").value;
      && "us" in c.codes && c.codes["us"] == "C"
      && "us" in FoldedIndex(c) && FoldedIndex(c)["us"] == "B"
  {
    CollisionRowsLoad();
    FoldExamples();
    var c := Converter(["us", "US"], map["us" := "C", "US" := "B"]);
    assert FoldedPrefix(c, 1) == FoldedPrefix(c, 0)["us" := "C"];
    assert FoldedPrefix(c, 2) == FoldedPrefix(c, 1)["us" := "B"];
  }
}
