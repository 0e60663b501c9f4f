/**
 * The row logic of `executar_pipeline_completo` in
 * src/etl/analysis/enrichment.py: the consolidated table gets a numeric
 * value, a normalised CNPJ key and a validity flag; rows without a
 * company name are dropped; the operator registry, deduplicated on the
 * normalised CNPJ (last row wins), is left-joined to add RegistroANS,
 * Modalidade and UF; and the positive values are aggregated per
 * (RazaoSocial, UF, RegistroANS, Modalidade) and ordered by total,
 * largest first.
 *
 * The two CSV files arrive as rows (`None` when the file does not
 * exist); `pd.to_numeric` and the sample standard deviation are passed in
 * by the caller.
 */
module Enrichment {
  import opened Wrappers
  import opened Tables
  import opened Cnpj

  // ---------------------------------------------------------------------
  // Data
  // ---------------------------------------------------------------------

  /** A row of consolidado.csv, every column read as text. */
  datatype ConsolidatedRow = ConsolidatedRow(cnpj: Option<string>, razaoSocial: Option<string>,
                                             trimestre: Option<string>, ano: Option<string>,
                                             valorDespesas: Option<string>)

  /** A row after pre-processing: the numeric value, KEY_CNPJ and CNPJ_Valido. */
  datatype Prepared = Prepared(src: ConsolidatedRow, valor: real, key: string, valido: bool)

  /** A row of the operator registry (the four columns read). */
  datatype RegistryRow = RegistryRow(cnpj: Option<string>, registro: Option<string>,
                                     modalidade: Option<string>, uf: Option<string>)

  /** A row of the enriched consolidated table (KEY_CNPJ dropped). */
  datatype Enriched = Enriched(src: ConsolidatedRow, valor: real, valido: bool,
                               registroAns: string, modalidade: string, uf: string)

  /** The grouping columns of the aggregate. */
  datatype GroupKey = GroupKey(razaoSocial: Option<string>, uf: string, registroAns: string, modalidade: string)

  /** A row of despesas_agregadas.csv. */
  datatype AggRow = AggRow(key: GroupKey, total: real, media: real, desvio: real)

  /** Both tables the pipeline writes. */
  datatype Output = Output(enriquecido: seq<Enriched>, agregado: seq<AggRow>)

  /** The fill for a missing RegistroANS or UF. */
  const Unknown := "N/D"

  /** The fill for a missing Modalidade after a join. */
  const UnknownModality := "Desconhecida"

  // ---------------------------------------------------------------------
  // Pre-processing (lines 57-63)
  // ---------------------------------------------------------------------

  /** `.str.replace(',', '.')`. */
  function ReplaceComma(s: string): (r: string)
    ensures |r| == |s|
    ensures forall i :: 0 <= i < |s| ==> r[i] == (if s[i] == ',' then '.' else s[i])
    ensures ',' !in r
  {
    seq(|s|, i requires 0 <= i < |s| => if s[i] == ',' then '.' else s[i])
  }

  /** The numeric ValorDespesas: a decimal comma becomes a point, and a
      missing or unparseable value becomes 0. */
  function Valor(cell: Option<string>, toNumeric: string -> Option<real>): (v: real)
    ensures cell.Some? && toNumeric(ReplaceComma(cell.value)).Some? ==> v == toNumeric(ReplaceComma(cell.value)).value
    ensures cell.None? || toNumeric(ReplaceComma(cell.value)).None? ==> v == 0.0
    ensures v != 0.0 ==> cell.Some? && toNumeric(ReplaceComma(cell.value)) == Some(v)
  {
    match cell
    case None => 0.0
    case Some(s) => toNumeric(ReplaceComma(s)).GetOr(0.0)
  }

  /** A decimal comma and a decimal point read the same: a cell and its
      comma-free form get the same value. */
  lemma ValorDecimalComma(s: string, toNumeric: string -> Option<real>)
    ensures Valor(Some(s), toNumeric) == Valor(Some(ReplaceComma(s)), toNumeric)
  {
    assert ReplaceComma(ReplaceComma(s)) == ReplaceComma(s);
  }

  /** One row with its value, its KEY_CNPJ and the flag computed from that key. */
  function Prepare(row: ConsolidatedRow, toNumeric: string -> Option<real>): (p: Prepared)
    ensures p.src == row && p.valor == Valor(row.valorDespesas, toNumeric) && p.key == Limpar(row.cnpj)
  {
    var key := Limpar(row.cnpj);
    Prepared(row, Valor(row.valorDespesas, toNumeric), key, Validar(Some(key)))
  }

  /** The flag computed from KEY_CNPJ is the validity of the raw CNPJ. */
  lemma PrepareFlag(row: ConsolidatedRow, toNumeric: string -> Option<real>)
    ensures Prepare(row, toNumeric).valido == Validar(row.cnpj)
  {
    ValidarOfKey(row.cnpj);
  }

  /** Pre-processing as a row function. */
  function Preparer(toNumeric: string -> Option<real>): ConsolidatedRow -> Prepared {
    row => Prepare(row, toNumeric)
  }

  function PrepareAll(rows: seq<ConsolidatedRow>, toNumeric: string -> Option<real>): seq<Prepared> {
    Map(rows, Preparer(toNumeric))
  }

  /** The consistency filter: RazaoSocial present and not empty. */
  predicate HasName(row: ConsolidatedRow) {
    row.razaoSocial.Some? && row.razaoSocial.value != ""
  }

  predicate IsNamed(p: Prepared) {
    HasName(p.src)
  }

  /** The flag drops nothing: filtering the prepared rows on the name is
      preparing the named rows. */
  lemma NameFilterCommutes(rows: seq<ConsolidatedRow>, toNumeric: string -> Option<real>)
    ensures Filter(PrepareAll(rows, toNumeric), IsNamed) == PrepareAll(Filter(rows, HasName), toNumeric)
  {
    FilterMap(rows, Preparer(toNumeric), HasName, IsNamed);
  }

  // ---------------------------------------------------------------------
  // Enrichment (lines 73-109)
  // ---------------------------------------------------------------------

  /** KEY_CNPJ of a registry row. */
  function RegistryKey(r: RegistryRow): string {
    Limpar(r.cnpj)
  }

  /** The registry keyed by its normalised CNPJ, the last row of each key
      kept (`drop_duplicates(keep='last')`). */
  function Dedup(rows: seq<RegistryRow>): map<string, RegistryRow> {
    LastWins(KeyedBy(rows, RegistryKey))
  }

  /** The left join of one row with the deduplicated registry, each added
      column filled on its own. */
  function Join(p: Prepared, registry: map<string, RegistryRow>): Enriched {
    if p.key in registry then
      var m := registry[p.key];
      Enriched(p.src, p.valor, p.valido, m.registro.GetOr(Unknown), m.modalidade.GetOr(UnknownModality), m.uf.GetOr(Unknown))
    else
      Enriched(p.src, p.valor, p.valido, Unknown, UnknownModality, Unknown)
  }

  /** The enriched table: one row per input row, in order, carrying its
      data; with no registry file the three added columns are all `N/D`. */
  function Enrich(df: seq<Prepared>, cadop: Option<seq<RegistryRow>>): (r: seq<Enriched>)
    ensures |r| == |df|
    ensures forall i :: 0 <= i < |df| ==> r[i].src == df[i].src && r[i].valor == df[i].valor && r[i].valido == df[i].valido
    ensures cadop.None? ==> forall i :: 0 <= i < |r| ==> r[i].registroAns == Unknown && r[i].modalidade == Unknown && r[i].uf == Unknown
    ensures cadop.Some? ==> forall i :: 0 <= i < |r| ==> r[i] == Join(df[i], Dedup(cadop.value))
  {
    match cadop
    case Some(rows) =>
      var registry := Dedup(rows);
      seq(|df|, i requires 0 <= i < |df| => Join(df[i], registry))
    case None =>
      seq(|df|, i requires 0 <= i < |df| => Enriched(df[i].src, df[i].valor, df[i].valido, Unknown, Unknown, Unknown))
  }

  /** The join takes the added columns from the last registry row whose
      normalised CNPJ equals the row's key, filling each missing cell; with
      no such row they are `N/D`, `Desconhecida` and `N/D`. */
  lemma JoinSpec(p: Prepared, rows: seq<RegistryRow>)
    ensures var e := Join(p, Dedup(rows));
            && ((forall j :: 0 <= j < |rows| ==> RegistryKey(rows[j]) != p.key) ==>
                  e.registroAns == Unknown && e.modalidade == UnknownModality && e.uf == Unknown)
            && ((exists j :: 0 <= j < |rows| && RegistryKey(rows[j]) == p.key) ==>
                  exists j :: 0 <= j < |rows| && RegistryKey(rows[j]) == p.key
                              && (forall l :: j < l < |rows| ==> RegistryKey(rows[l]) != p.key)
                              && e.registroAns == rows[j].registro.GetOr(Unknown)
                              && e.modalidade == rows[j].modalidade.GetOr(UnknownModality)
                              && e.uf == rows[j].uf.GetOr(Unknown))
  {
    LastWinsBy(rows, RegistryKey, p.key);
  }

  // ---------------------------------------------------------------------
  // Aggregation (lines 121-134)
  // ---------------------------------------------------------------------

  predicate IsPositive(e: Enriched) {
    e.valor > 0.0
  }

  function GroupKeyOf(e: Enriched): GroupKey {
    GroupKey(e.src.razaoSocial, e.uf, e.registroAns, e.modalidade)
  }

  function KeyedValues(es: seq<Enriched>): (kv: seq<(GroupKey, real)>)
    ensures |kv| == |es|
    ensures forall i :: 0 <= i < |es| ==> kv[i] == (GroupKeyOf(es[i]), es[i].valor)
  {
    seq(|es|, i requires 0 <= i < |es| => (GroupKeyOf(es[i]), es[i].valor))
  }

  /** The mean of a non-empty group: the value that, times the group size,
      gives its total. */
  function Mean(vs: seq<real>): (m: real)
    requires vs != []
    ensures m * (|vs| as real) == Total(vs)
  {
    Total(vs) / (|vs| as real)
  }

  /** Sum, mean and sample deviation of one group; a one-row group has no
      sample deviation and gets 0. */
  function AggOf(g: Group<GroupKey>, sampleStd: seq<real> -> real): AggRow {
    var total := Total(g.values);
    var media := if g.values == [] then 0.0 else Mean(g.values);
    var desvio := if |g.values| <= 1 then 0.0 else sampleStd(g.values);
    AggRow(g.key, total, media, desvio)
  }

  /** `groupby(cols).agg(sum, mean, std)` followed by `fillna(0)` on the deviation. */
  function Aggregate(stats: seq<Enriched>, sampleStd: seq<real> -> real): (agg: seq<AggRow>)
    ensures |agg| == |GroupBy(KeyedValues(stats))|
    ensures forall i :: 0 <= i < |agg| ==> agg[i] == AggOf(GroupBy(KeyedValues(stats))[i], sampleStd)
  {
    var gs := GroupBy(KeyedValues(stats));
    seq(|gs|, i requires 0 <= i < |gs| => AggOf(gs[i], sampleStd))
  }

  /** Whether some row of the input has group key `k`. */
  predicate InGroup(stats: seq<Enriched>, k: GroupKey) {
    exists i :: 0 <= i < |stats| && GroupKeyOf(stats[i]) == k
  }

  /** The properties one aggregate row has: its total is the sum of its
      group's values and positive, its mean is that total over the group's
      size, and a one-row group has deviation 0. */
  predicate AggregatesGroup(stats: seq<Enriched>, a: AggRow) {
    var vs := ValuesFor(KeyedValues(stats), a.key);
    && vs != []
    && a.total == Total(vs)
    && a.total > 0.0
    && a.media == Mean(vs)
    && (|vs| == 1 ==> a.desvio == 0.0)
  }

  /** The statistics of one non-empty group of positive values: a positive
      total, the group mean, and
      deviation 0 for a single row. */
  lemma AggOfSpec(g: Group<GroupKey>, sampleStd: seq<real> -> real)
    requires g.values != [] && forall i :: 0 <= i < |g.values| ==> g.values[i] > 0.0
    ensures var a := AggOf(g, sampleStd);
            && a.key == g.key
            && a.total == Total(g.values) && a.total > 0.0
            && a.media == Mean(g.values)
            && (|g.values| == 1 ==> a.desvio == 0.0)
  {
    TotalPositive(g.values);
  }

  /** One aggregate row sums, averages and (for one row) zeroes the
      deviation of its group. */
  lemma AggregateRow(stats: seq<Enriched>, sampleStd: seq<real> -> real, i: nat)
    requires forall i :: 0 <= i < |stats| ==> stats[i].valor > 0.0
    requires i < |Aggregate(stats, sampleStd)|
    ensures AggregatesGroup(stats, Aggregate(stats, sampleStd)[i])
  {
    var kv := KeyedValues(stats);
    var gs := GroupBy(kv);
    var g := gs[i];
    GroupByValues(kv);
    GroupByKeys(kv);
    assert g in gs;
    assert HasKey(gs, g.key);
    ValuesForPresent(kv, g.key);
    ValuesForPositive(kv, g.key);
    AggOfSpec(g, sampleStd);
  }

  /** The aggregate has a row for a key exactly when some input row has it. */
  lemma AggregateKeys(stats: seq<Enriched>, sampleStd: seq<real> -> real)
    ensures var agg := Aggregate(stats, sampleStd);
            forall k :: (exists i :: 0 <= i < |agg| && agg[i].key == k) <==> InGroup(stats, k)
  {
    var agg := Aggregate(stats, sampleStd);
    var kv := KeyedValues(stats);
    var gs := GroupBy(kv);
    GroupByKeys(kv);
    forall k ensures (exists i :: 0 <= i < |agg| && agg[i].key == k) <==> InGroup(stats, k) {
      if exists i :: 0 <= i < |agg| && agg[i].key == k {
        var i :| 0 <= i < |agg| && agg[i].key == k;
        assert gs[i].key == k;
        assert HasKey(gs, k);
        var j :| 0 <= j < |kv| && kv[j].0 == k;
        assert GroupKeyOf(stats[j]) == k;
      }
      if InGroup(stats, k) {
        var i :| 0 <= i < |stats| && GroupKeyOf(stats[i]) == k;
        assert kv[i].0 == k;
        assert HasKey(gs, k);
        var j :| 0 <= j < |gs| && gs[j].key == k;
        assert agg[j].key == k;
      }
    }
  }

  /** On positive rows, the aggregate has pairwise distinct keys, a row for
      a key exactly when some input row has it, and each row sums, averages
      and (for one row) zeroes the deviation of its group. */
  lemma AggregateSpec(stats: seq<Enriched>, sampleStd: seq<real> -> real)
    requires forall i :: 0 <= i < |stats| ==> stats[i].valor > 0.0
    ensures var agg := Aggregate(stats, sampleStd);
            && DistinctGroupKeys(agg)
            && (forall k :: (exists i :: 0 <= i < |agg| && agg[i].key == k) <==> InGroup(stats, k))
            && (forall i :: 0 <= i < |agg| ==> AggregatesGroup(stats, agg[i]))
  {
    var agg := Aggregate(stats, sampleStd);
    GroupByDistinct(KeyedValues(stats));
    AggregateKeys(stats, sampleStd);
    forall i | 0 <= i < |agg| ensures AggregatesGroup(stats, agg[i]) {
      AggregateRow(stats, sampleStd, i);
    }
  }

  // ---------------------------------------------------------------------
  // sort_values(by='Total_Despesas', ascending=False)
  // ---------------------------------------------------------------------

  predicate SortedDesc(s: seq<AggRow>) {
    forall i, j :: 0 <= i < j < |s| ==> s[i].total >= s[j].total
  }

  /** Inserts `x` before the first row whose total does not exceed it. */
  function Insert(x: AggRow, s: seq<AggRow>): seq<AggRow> {
    if s == [] || s[0].total <= x.total then [x] + s
    else [s[0]] + Insert(x, s[1..])
  }

  /** Insertion sort, largest total first. */
  function SortDesc(s: seq<AggRow>): seq<AggRow> {
    if s == [] then [] else Insert(s[0], SortDesc(s[1..]))
  }

  /** Insertion puts `x` somewhere inside `s`, leaving `s` in order around it. */
  lemma {:induction false} InsertAt(x: AggRow, s: seq<AggRow>) returns (k: nat)
    ensures k <= |s| && Insert(x, s) == s[..k] + [x] + s[k..]
  {
    if s == [] || s[0].total <= x.total {
      k := 0;
    } else {
      var k' := InsertAt(x, s[1..]);
      k := k' + 1;
      assert s[..k] == [s[0]] + s[1..][..k'];
      assert s[k..] == s[1..][k'..];
    }
  }

  lemma {:induction false} InsertSorted(x: AggRow, s: seq<AggRow>)
    requires SortedDesc(s)
    ensures SortedDesc(Insert(x, s))
  {
    if s == [] || s[0].total <= x.total {
    } else {
      InsertSorted(x, s[1..]);
      var k := InsertAt(x, s[1..]);
      var t := Insert(x, s[1..]);
      forall j | 0 <= j < |t| ensures s[0].total >= t[j].total {
        if j < k {
          assert t[j] == s[1..][j];
        } else if j > k {
          assert t[j] == s[1..][j - 1];
        }
      }
    }
  }

  /** The sorted aggregate is ordered by total, non-increasing. */
  lemma {:induction false} SortDescSorted(s: seq<AggRow>)
    ensures SortedDesc(SortDesc(s))
  {
    if s != [] {
      SortDescSorted(s[1..]);
      InsertSorted(s[0], SortDesc(s[1..]));
    }
  }

  /** Sorting reorders the rows and nothing else. */
  lemma {:induction false} SortDescPermutes(s: seq<AggRow>)
    ensures multiset(SortDesc(s)) == multiset(s)
  {
    if s != [] {
      SortDescPermutes(s[1..]);
      var t := SortDesc(s[1..]);
      var k := InsertAt(s[0], t);
      assert t == t[..k] + t[k..];
      assert s == [s[0]] + s[1..];
    }
  }

  predicate DistinctGroupKeys(s: seq<AggRow>) {
    forall i, j :: 0 <= i < j < |s| ==> s[i].key != s[j].key
  }

  /** Putting a row whose key is new anywhere into a table with distinct
      keys keeps them distinct. */
  lemma SpliceDistinct(t: seq<AggRow>, k: nat, x: AggRow)
    requires k <= |t| && DistinctGroupKeys(t)
    requires forall i :: 0 <= i < |t| ==> t[i].key != x.key
    ensures DistinctGroupKeys(t[..k] + [x] + t[k..])
  {
    var r := t[..k] + [x] + t[k..];
    assert forall i :: 0 <= i < |r| ==> r[i] == if i < k then t[i] else if i == k then x else t[i - 1];
  }

  /** Sorting keeps the group keys pairwise distinct. */
  lemma {:induction false} SortDescDistinct(s: seq<AggRow>)
    requires DistinctGroupKeys(s)
    ensures DistinctGroupKeys(SortDesc(s))
  {
    if s != [] {
      var tail := s[1..];
      assert DistinctGroupKeys(tail) by {
        forall i, j | 0 <= i < j < |tail| ensures tail[i].key != tail[j].key {
          assert tail[i] == s[i + 1] && tail[j] == s[j + 1];
        }
      }
      SortDescDistinct(tail);
      SortDescPermutes(tail);
      var t := SortDesc(tail);
      forall i | 0 <= i < |t| ensures t[i].key != s[0].key {
        assert t[i] in multiset(tail);
        var j :| 0 <= j < |tail| && tail[j] == t[i];
        assert tail[j] == s[j + 1];
      }
      var k := InsertAt(s[0], t);
      SpliceDistinct(t, k, s[0]);
    }
  }

  /** The sorted aggregate of positive rows: ordered by total, keys
      pairwise distinct, one row per key that occurs, each row its group's
      statistics. */
  lemma SortedAggregateSpec(stats: seq<Enriched>, sampleStd: seq<real> -> real)
    requires forall i :: 0 <= i < |stats| ==> stats[i].valor > 0.0
    ensures var out := SortDesc(Aggregate(stats, sampleStd));
            && SortedDesc(out)
            && DistinctGroupKeys(out)
            && (forall k :: (exists i :: 0 <= i < |out| && out[i].key == k) <==> InGroup(stats, k))
            && (forall i :: 0 <= i < |out| ==> AggregatesGroup(stats, out[i]))
  {
    var agg := Aggregate(stats, sampleStd);
    AggregateSpec(stats, sampleStd);
    SortDescSorted(agg);
    SortDescPermutes(agg);
    SortDescDistinct(agg);
    var sorted := SortDesc(agg);
    forall i | 0 <= i < |sorted| ensures AggregatesGroup(stats, sorted[i]) {
      assert sorted[i] in multiset(agg);
    }
    forall k ensures (exists i :: 0 <= i < |sorted| && sorted[i].key == k) <==> InGroup(stats, k) {
      if exists i :: 0 <= i < |agg| && agg[i].key == k {
        var i :| 0 <= i < |agg| && agg[i].key == k;
        assert agg[i] in multiset(sorted);
      }
      if exists i :: 0 <= i < |sorted| && sorted[i].key == k {
        var i :| 0 <= i < |sorted| && sorted[i].key == k;
        assert sorted[i] in multiset(agg);
      }
    }
  }

  // ---------------------------------------------------------------------
  // The whole pipeline
  // ---------------------------------------------------------------------

  /** What `executar_pipeline_completo` writes: nothing without
      consolidado.csv; otherwise the enriched table and the sorted aggregate
      of its positive rows. */
  function Pipeline(consolidado: Option<seq<ConsolidatedRow>>, cadop: Option<seq<RegistryRow>>,
                    toNumeric: string -> Option<real>, sampleStd: seq<real> -> real): Option<Output> {
    match consolidado
    case None => None
    case Some(rows) =>
      var df := Filter(PrepareAll(rows, toNumeric), IsNamed);
      var enriquecido := Enrich(df, cadop);
      Some(Output(enriquecido, SortDesc(Aggregate(Filter(enriquecido, IsPositive), sampleStd))))
  }

  /** `executar_pipeline_completo`, step by step on the table. */
  method ExecutarPipelineCompleto(consolidado: Option<seq<ConsolidatedRow>>, cadop: Option<seq<RegistryRow>>,
                                  toNumeric: string -> Option<real>, sampleStd: seq<real> -> real)
    returns (result: Option<Output>)
    ensures result.None? <==> consolidado.None?
    ensures result == Pipeline(consolidado, cadop, toNumeric, sampleStd)
  {
    if consolidado.None? {
      return None;
    }
    var df := PrepareAll(consolidado.value, toNumeric);
    df := Filter(df, IsNamed);
    var dfEnriquecido := Enrich(df, cadop);
    var dfStats := Filter(dfEnriquecido, IsPositive);
    var dfAgg := Aggregate(dfStats, sampleStd);
    dfAgg := SortDesc(dfAgg);
    result := Some(Output(dfEnriquecido, dfAgg));
  }

  /** The enriched table has one row per input row with a company name, in
      order: its data, its parsed value and the validity of its CNPJ. The
      flag removes nothing. */
  lemma PipelineEnriched(rows: seq<ConsolidatedRow>, cadop: Option<seq<RegistryRow>>,
                         toNumeric: string -> Option<real>, sampleStd: seq<real> -> real)
    ensures var out := Pipeline(Some(rows), cadop, toNumeric, sampleStd).value.enriquecido;
            var named := Filter(rows, HasName);
            && |out| == |named|
            && forall i :: 0 <= i < |out| ==>
                 && out[i].src == named[i]
                 && out[i].valor == Valor(named[i].valorDespesas, toNumeric)
                 && out[i].valido == Validar(named[i].cnpj)
  {
    NameFilterCommutes(rows, toNumeric);
    var named := Filter(rows, HasName);
    forall i | 0 <= i < |named| ensures Prepare(named[i], toNumeric).valido == Validar(named[i].cnpj) {
      PrepareFlag(named[i], toNumeric);
    }
  }

  /** The added columns of `e` are those the left join gives a row with
      normalised CNPJ `key`: from the last registry row with that key, each
      missing cell filled on its own, or `N/D`, `Desconhecida` and `N/D`
      when no registry row has it. */
  predicate JoinedFrom(e: Enriched, key: string, reg: seq<RegistryRow>) {
    && ((forall j :: 0 <= j < |reg| ==> RegistryKey(reg[j]) != key) ==>
          e.registroAns == Unknown && e.modalidade == UnknownModality && e.uf == Unknown)
    && ((exists j :: 0 <= j < |reg| && RegistryKey(reg[j]) == key) ==>
          exists j :: 0 <= j < |reg| && RegistryKey(reg[j]) == key
                      && (forall l :: j < l < |reg| ==> RegistryKey(reg[l]) != key)
                      && e.registroAns == reg[j].registro.GetOr(Unknown)
                      && e.modalidade == reg[j].modalidade.GetOr(UnknownModality)
                      && e.uf == reg[j].uf.GetOr(Unknown))
  }

  /** One consolidated row joined with the registry. */
  lemma JoinedRow(row: ConsolidatedRow, reg: seq<RegistryRow>, toNumeric: string -> Option<real>)
    ensures JoinedFrom(Join(Prepare(row, toNumeric), Dedup(reg)), Limpar(row.cnpj), reg)
  {
    JoinSpec(Prepare(row, toNumeric), reg);
  }

  /** With a registry file, each enriched row takes RegistroANS, Modalidade
      and UF from the last registry row whose normalised CNPJ equals that of
      the row, each missing cell filled on its own; a row no registry row
      matches gets `N/D`, `Desconhecida` and `N/D`. */
  lemma PipelineJoined(rows: seq<ConsolidatedRow>, reg: seq<RegistryRow>,
                       toNumeric: string -> Option<real>, sampleStd: seq<real> -> real)
    ensures var out := Pipeline(Some(rows), Some(reg), toNumeric, sampleStd).value.enriquecido;
            var named := Filter(rows, HasName);
            && |out| == |named|
            && forall i :: 0 <= i < |out| ==> JoinedFrom(out[i], Limpar(named[i].cnpj), reg)
  {
    NameFilterCommutes(rows, toNumeric);
    var named := Filter(rows, HasName);
    forall i | 0 <= i < |named| {
      JoinedRow(named[i], reg, toNumeric);
    }
  }

  /** Every enriched row, and so every aggregate key, has a company name. */
  lemma EnrichedNamed(rows: seq<ConsolidatedRow>, cadop: Option<seq<RegistryRow>>,
                      toNumeric: string -> Option<real>, sampleStd: seq<real> -> real)
    ensures var out := Pipeline(Some(rows), cadop, toNumeric, sampleStd).value.enriquecido;
            forall i :: 0 <= i < |out| ==> HasName(out[i].src)
  {
    var df := Filter(PrepareAll(rows, toNumeric), IsNamed);
    FilterMembers(PrepareAll(rows, toNumeric), IsNamed);
    forall i | 0 <= i < |df| ensures IsNamed(df[i]) {
      assert df[i] in df;
    }
  }

  /** The aggregate: built from the positive enriched rows only, ordered by
      total (non-increasing), one row per group key that occurs among them,
      keys pairwise distinct, each row summing its group with a positive
      total, and a one-row group with deviation 0. */
  lemma PipelineAggregate(rows: seq<ConsolidatedRow>, cadop: Option<seq<RegistryRow>>,
                          toNumeric: string -> Option<real>, sampleStd: seq<real> -> real)
    ensures var out := Pipeline(Some(rows), cadop, toNumeric, sampleStd).value;
            var stats := Filter(out.enriquecido, IsPositive);
            && (forall i :: 0 <= i < |stats| ==> stats[i].valor > 0.0)
            && SortedDesc(out.agregado)
            && DistinctGroupKeys(out.agregado)
            && (forall k :: (exists i :: 0 <= i < |out.agregado| && out.agregado[i].key == k) <==> InGroup(stats, k))
            && (forall i :: 0 <= i < |out.agregado| ==> AggregatesGroup(stats, out.agregado[i]))
  {
    var out := Pipeline(Some(rows), cadop, toNumeric, sampleStd).value;
    var stats := Filter(out.enriquecido, IsPositive);
    PositiveRows(out.enriquecido);
    SortedAggregateSpec(stats, sampleStd);
  }

  /** The statistics only see rows with a positive value. */
  lemma PositiveRows(es: seq<Enriched>)
    ensures forall i :: 0 <= i < |Filter(es, IsPositive)| ==> Filter(es, IsPositive)[i].valor > 0.0
  {
    var stats := Filter(es, IsPositive);
    FilterMembers(es, IsPositive);
    forall i | 0 <= i < |stats| ensures stats[i].valor > 0.0 {
      assert stats[i] in stats;
    }
  }
}
