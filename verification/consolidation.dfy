/**
 * The consolidation step of src/etl/transformation.py: the registry
 * lookups of `carregar_cadop`, the choice of statement files, and
 * `transformar_dados`, which turns every expense row of every statement
 * file into a (CNPJ, RazaoSocial, Trimestre, Ano) key and a value, then
 * drops zero values, takes absolute values and sums per key.
 *
 * Reading and writing files is not modelled: the registry and the
 * statement files arrive as rows, a file the reader could not process as
 * `None`, and the two pandas parsers (`to_datetime`, `to_numeric`) as
 * partial functions passed in by the caller.
 */
module Consolidation {
  import opened Wrappers
  import opened Text
  import opened Tables

  // ---------------------------------------------------------------------
  // Data
  // ---------------------------------------------------------------------

  /** A file the pipeline may read: missing, present but unreadable, or its rows. */
  datatype Source<T> = Absent | Unreadable | Rows(rows: seq<T>)

  /** One row of the operator registry: REGISTRO_OPERADORA, CNPJ, Razao_Social. */
  datatype RegistryRow = RegistryRow(registro: string, cnpj: Option<string>, razaoSocial: Option<string>)

  /** A dictionary built from one registry column; a missing cell is `None`. */
  type Lookup = map<string, Option<string>>

  type Month = m: int | 1 <= m <= 12 witness 1

  /** A parsed DATA cell. */
  datatype Date = Date(year: int, month: Month)

  /** One row of a statement file: REG_ANS, CD_CONTA_CONTABIL as text,
      VL_SALDO_FINAL and DATA (a missing cell is `None`). */
  datatype StatementRow = StatementRow(regAns: string, conta: string, saldo: Option<string>, data: Option<string>)

  /** A statement file that was read: whether it has the DATA and the
      VL_SALDO_FINAL columns, and its rows. */
  datatype StatementFile = StatementFile(hasData: bool, hasSaldo: bool, rows: seq<StatementRow>)

  /** The grouping key of the consolidated table. */
  datatype Key = Key(cnpj: string, razaoSocial: string, trimestre: string, ano: int)

  /** A row of one processed file, before the numeric conversion. */
  datatype Staged = Staged(key: Key, saldo: Option<string>)

  /** The year used when there is no date. */
  const DefaultYear := 2025

  /** The quarter label used when there is no date. */
  const NoQuarter := "N/D"

  // ---------------------------------------------------------------------
  // carregar_cadop
  // ---------------------------------------------------------------------

  function NamePairs(rows: seq<RegistryRow>): (ps: seq<(string, Option<string>)>)
    ensures |ps| == |rows|
    ensures forall i :: 0 <= i < |rows| ==> ps[i] == (rows[i].registro, rows[i].razaoSocial)
  {
    seq(|rows|, i requires 0 <= i < |rows| => (rows[i].registro, rows[i].razaoSocial))
  }

  function CnpjPairs(rows: seq<RegistryRow>): (ps: seq<(string, Option<string>)>)
    ensures |ps| == |rows|
    ensures forall i :: 0 <= i < |rows| ==> ps[i] == (rows[i].registro, rows[i].cnpj)
  {
    seq(|rows|, i requires 0 <= i < |rows| => (rows[i].registro, rows[i].cnpj))
  }

  /** `carregar_cadop`: the registration-to-name and registration-to-CNPJ
      dictionaries; two empty ones when the file is missing or unreadable. */
  function CarregarCadop(src: Source<RegistryRow>): (maps: (Lookup, Lookup))
    ensures !src.Rows? ==> maps.0 == map[] && maps.1 == map[]
  {
    match src
    case Rows(rows) => (LastWins(NamePairs(rows)), LastWins(CnpjPairs(rows)))
    case _ => (map[], map[])
  }

  /** A registration number is in the dictionaries exactly when some
      registry row has it, and then the last such row gives both the name
      and the CNPJ. */
  lemma CarregarCadopLastWins(rows: seq<RegistryRow>, registro: string)
    ensures var (names, cnpjs) := CarregarCadop(Rows(rows));
            && (registro in names <==> exists i :: 0 <= i < |rows| && rows[i].registro == registro)
            && (registro in cnpjs <==> registro in names)
            && (registro in names ==>
                  exists i :: 0 <= i < |rows| && rows[i].registro == registro
                              && names[registro] == rows[i].razaoSocial
                              && cnpjs[registro] == rows[i].cnpj
                              && forall j :: i < j < |rows| ==> rows[j].registro != registro)
  {
    var ns, cs := NamePairs(rows), CnpjPairs(rows);
    LastWinsKeys(ns);
    LastWinsKeys(cs);
    if exists i :: 0 <= i < |rows| && rows[i].registro == registro {
      assert exists i :: 0 <= i < |ns| && ns[i].0 == registro;
      var i := LastIndexOf(ns, registro);
      LastWinsValue(ns, i);
      forall j | i < j < |cs| ensures cs[j].0 != cs[i].0 {
        assert cs[j].0 == ns[j].0;
      }
      LastWinsValue(cs, i);
    } else {
      forall k | k in LastWins(ns) || k in LastWins(cs) ensures k != registro {
        if k in LastWins(ns) {
          var i :| 0 <= i < |ns| && ns[i].0 == k;
        } else {
          var i :| 0 <= i < |cs| && cs[i].0 == k;
        }
      }
    }
  }

  // ---------------------------------------------------------------------
  // Choosing the statement files
  // ---------------------------------------------------------------------

  /** The filter of the listed CSV paths: neither `Relatorio_cadop` in the
      path nor `cadop` in its lower-cased form. */
  predicate IsStatementPath(path: string) {
    !Contains(path, "Relatorio_cadop") && !Contains(Lower(path), "cadop")
  }

  /** The first test is subsumed by the second: a path is a statement file
      exactly when its lower-cased form does not contain `cadop`. */
  lemma StatementPathIff(path: string)
    ensures IsStatementPath(path) <==> !Contains(Lower(path), "cadop")
  {
    if Contains(path, "Relatorio_cadop") {
      var i :| 0 <= i <= |path| - |"Relatorio_cadop"| && OccursAt(path, "Relatorio_cadop", i);
      var low := Lower(path);
      forall k | 0 <= k < 5 ensures low[i + 10 + k] == "cadop"[k] {
        assert path[i + 10 + k] == "Relatorio_cadop"[10 + k];
      }
      assert low[i + 10..i + 15] == "cadop";
      assert OccursAt(low, "cadop", i + 10);
    }
  }

  predicate IsStatementEntry(entry: (string, Option<StatementFile>)) {
    IsStatementPath(entry.0)
  }

  /** `arquivos_contabeis`: the listed files whose path passes the filter, in order. */
  function ArquivosContabeis(files: seq<(string, Option<StatementFile>)>): seq<(string, Option<StatementFile>)> {
    Filter(files, IsStatementEntry)
  }

  /** Statement files are exactly the listed entries whose lower-cased path
      does not contain `cadop`. */
  lemma ArquivosContabeisMembers(files: seq<(string, Option<StatementFile>)>)
    ensures forall e :: e in ArquivosContabeis(files) <==> e in files && !Contains(Lower(e.0), "cadop")
  {
    FilterMembers(files, IsStatementEntry);
    forall e ensures e in ArquivosContabeis(files) <==> e in files && !Contains(Lower(e.0), "cadop") {
      assert e in Filter(files, IsStatementEntry) ==> IsStatementEntry(e);
      StatementPathIff(e.0);
    }
  }

  // ---------------------------------------------------------------------
  // One statement row
  // ---------------------------------------------------------------------

  /** The account filter: the code, as text, starts with `4`. */
  predicate IsExpenseAccount(row: StatementRow) {
    StartsWith(row.conta, "4")
  }

  /** `f"{(m - 1) // 3 + 1}T"` for a month `m`. */
  function Quarter(month: Month): (q: string)
    ensures q == "1T" <==> month <= 3
    ensures q == "2T" <==> 4 <= month <= 6
    ensures q == "3T" <==> 7 <= month <= 9
    ensures q == "4T" <==> 10 <= month
  {
    [('0' as int + (month - 1) / 3 + 1) as char, 'T']
  }

  /** The Trimestre column: the quarter of the parsed date, or `N/D` without one. */
  function Trimestre(hasData: bool, data: Option<string>, toDate: string -> Option<Date>): string {
    if !hasData || data.None? then NoQuarter
    else match toDate(data.value)
      case Some(d) => Quarter(d.month)
      case None => NoQuarter
  }

  /** The Ano column: the year of the parsed date, or 2025 without one. */
  function Ano(hasData: bool, data: Option<string>, toDate: string -> Option<Date>): int {
    if !hasData || data.None? then DefaultYear
    else match toDate(data.value)
      case Some(d) => d.year
      case None => DefaultYear
  }

  /** `series.map(dictionary)`: a registration that is absent, or whose
      cell was empty, gives nothing. */
  function Find(m: Lookup, k: string): Option<string> {
    if k in m then m[k] else None
  }

  /** One expense row with its key: name and CNPJ from the registry, each
      falling back on its own (to `Operadora <REG_ANS>` and to REG_ANS). */
  function IngestRow(file: StatementFile, row: StatementRow, names: Lookup, cnpjs: Lookup,
                     toDate: string -> Option<Date>): (r: Staged)
    ensures row.regAns in names && names[row.regAns].Some? ==> r.key.razaoSocial == names[row.regAns].value
    ensures !(row.regAns in names && names[row.regAns].Some?) ==> r.key.razaoSocial == "Operadora " + row.regAns
    ensures row.regAns in cnpjs && cnpjs[row.regAns].Some? ==> r.key.cnpj == cnpjs[row.regAns].value
    ensures !(row.regAns in cnpjs && cnpjs[row.regAns].Some?) ==> r.key.cnpj == row.regAns
    ensures file.hasData && row.data.Some? && toDate(row.data.value).Some? ==>
              r.key.trimestre == Quarter(toDate(row.data.value).value.month) && r.key.ano == toDate(row.data.value).value.year
    ensures !file.hasData || row.data.None? || toDate(row.data.value).None? ==>
              r.key.trimestre == NoQuarter && r.key.ano == DefaultYear
    ensures r.saldo == if file.hasSaldo then row.saldo else None
  {
    var razao := Find(names, row.regAns).GetOr("Operadora " + row.regAns);
    var cnpj := Find(cnpjs, row.regAns).GetOr(row.regAns);
    var saldo := if file.hasSaldo then row.saldo else None;
    Staged(Key(cnpj, razao, Trimestre(file.hasData, row.data, toDate), Ano(file.hasData, row.data, toDate)), saldo)
  }

  /** The rows of one statement file after the account filter, with their keys. */
  function IngestFile(file: StatementFile, names: Lookup, cnpjs: Lookup, toDate: string -> Option<Date>): (staged: seq<Staged>)
    ensures var kept := Filter(file.rows, IsExpenseAccount);
            |staged| == |kept| && forall i :: 0 <= i < |kept| ==> staged[i] == IngestRow(file, kept[i], names, cnpjs, toDate)
  {
    var kept := Filter(file.rows, IsExpenseAccount);
    seq(|kept|, i requires 0 <= i < |kept| => IngestRow(file, kept[i], names, cnpjs, toDate))
  }

  /** A file is processed row by row: splitting its rows splits what it
      contributes, and a single row contributes itself, with its key,
      exactly when its account code starts with `4`. So the staged rows are
      the expense rows of the file, each with its key, in file order. */
  lemma IngestFileAppend(file: StatementFile, a: seq<StatementRow>, b: seq<StatementRow>,
                         names: Lookup, cnpjs: Lookup, toDate: string -> Option<Date>)
    ensures IngestFile(file.(rows := a + b), names, cnpjs, toDate)
            == IngestFile(file.(rows := a), names, cnpjs, toDate) + IngestFile(file.(rows := b), names, cnpjs, toDate)
    ensures |a| == 1 ==>
              IngestFile(file.(rows := a), names, cnpjs, toDate)
              == if StartsWith(a[0].conta, "4") then [IngestRow(file, a[0], names, cnpjs, toDate)] else []
  {
    FilterAppend(a, b, IsExpenseAccount);
    var ka, kb := Filter(a, IsExpenseAccount), Filter(b, IsExpenseAccount);
    var sa := IngestFile(file.(rows := a), names, cnpjs, toDate);
    var sb := IngestFile(file.(rows := b), names, cnpjs, toDate);
    var sab := IngestFile(file.(rows := a + b), names, cnpjs, toDate);
    assert |sab| == |sa + sb|;
    forall i | 0 <= i < |sab| ensures sab[i] == (sa + sb)[i] {
      if i < |ka| {
        assert (ka + kb)[i] == ka[i];
      } else {
        assert (ka + kb)[i] == kb[i - |ka|];
      }
    }
    if |a| == 1 {
      assert a[..0] == [];
    }
  }

  /** A staged row is the keyed form of some expense row of the file, and
      every expense row of the file is staged. */
  lemma IngestFileMembers(file: StatementFile, names: Lookup, cnpjs: Lookup, toDate: string -> Option<Date>)
    ensures var staged := IngestFile(file, names, cnpjs, toDate);
            forall s :: s in staged <==>
              exists j :: 0 <= j < |file.rows| && StartsWith(file.rows[j].conta, "4")
                          && s == IngestRow(file, file.rows[j], names, cnpjs, toDate)
  {
    var staged := IngestFile(file, names, cnpjs, toDate);
    var kept := Filter(file.rows, IsExpenseAccount);
    FilterMembers(file.rows, IsExpenseAccount);
    forall s ensures s in staged <==>
              exists j :: 0 <= j < |file.rows| && StartsWith(file.rows[j].conta, "4")
                          && s == IngestRow(file, file.rows[j], names, cnpjs, toDate) {
      if s in staged {
        var i :| 0 <= i < |staged| && staged[i] == s;
        assert kept[i] in kept;
        var j :| 0 <= j < |file.rows| && file.rows[j] == kept[i];
        assert IsExpenseAccount(file.rows[j]);
      }
      if exists j :: 0 <= j < |file.rows| && StartsWith(file.rows[j].conta, "4")
                     && s == IngestRow(file, file.rows[j], names, cnpjs, toDate) {
        var j :| 0 <= j < |file.rows| && StartsWith(file.rows[j].conta, "4")
                 && s == IngestRow(file, file.rows[j], names, cnpjs, toDate);
        assert IsExpenseAccount(file.rows[j]) && file.rows[j] in file.rows;
        var i :| 0 <= i < |kept| && kept[i] == file.rows[j];
        assert staged[i] == s;
      }
    }
  }

  // ---------------------------------------------------------------------
  // The consolidated table
  // ---------------------------------------------------------------------

  /** The frames collected by the loop: one per statement file that could
      be processed, in order; a file that raised is skipped. */
  function Staging(arquivos: seq<(string, Option<StatementFile>)>, names: Lookup, cnpjs: Lookup,
                   toDate: string -> Option<Date>): seq<seq<Staged>> {
    if arquivos == [] then []
    else
      var init := Staging(arquivos[..|arquivos| - 1], names, cnpjs, toDate);
      match arquivos[|arquivos| - 1].1
      case None => init
      case Some(file) => init + [IngestFile(file, names, cnpjs, toDate)]
  }

  /** `pd.concat(frames)`. */
  function Concat<T>(frames: seq<seq<T>>): seq<T> {
    if frames == [] then [] else Concat(frames[..|frames| - 1]) + frames[|frames| - 1]
  }

  /** `pd.to_numeric(..., errors='coerce').fillna(0)` on one cell. */
  function Numeric(toNumeric: string -> Option<real>, saldo: Option<string>): real {
    match saldo
    case None => 0.0
    case Some(s) => toNumeric(s).GetOr(0.0)
  }

  /** The key and numeric value of every collected row. */
  function Valued(rows: seq<Staged>, toNumeric: string -> Option<real>): (vs: seq<(Key, real)>)
    ensures |vs| == |rows|
    ensures forall i :: 0 <= i < |rows| ==> vs[i] == (rows[i].key, Numeric(toNumeric, rows[i].saldo))
  {
    seq(|rows|, i requires 0 <= i < |rows| => (rows[i].key, Numeric(toNumeric, rows[i].saldo)))
  }

  predicate IsNonZero(row: (Key, real)) {
    row.1 != 0.0
  }

  function Abs(x: real): real {
    if x < 0.0 then -x else x
  }

  /** `.abs()` on the value column. */
  function AbsValues(rows: seq<(Key, real)>): (r: seq<(Key, real)>)
    ensures |r| == |rows|
    ensures forall i :: 0 <= i < |rows| ==> r[i] == (rows[i].0, Abs(rows[i].1))
  {
    seq(|rows|, i requires 0 <= i < |rows| => (rows[i].0, Abs(rows[i].1)))
  }

  /** `groupby(key).sum()`: one row per key with the sum of its values. */
  function GroupSums(rows: seq<(Key, real)>): (r: seq<(Key, real)>)
    ensures |r| == |GroupBy(rows)|
    ensures forall i :: 0 <= i < |r| ==> r[i] == (GroupBy(rows)[i].key, Total(GroupBy(rows)[i].values))
  {
    var gs := GroupBy(rows);
    seq(|gs|, i requires 0 <= i < |gs| => (gs[i].key, Total(gs[i].values)))
  }

  /** The rows that go into the sum: non-zero values, made positive. */
  function Contributions(rows: seq<Staged>, toNumeric: string -> Option<real>): seq<(Key, real)> {
    AbsValues(Filter(Valued(rows, toNumeric), IsNonZero))
  }

  /** What `transformar_dados` writes: nothing when no statement file is
      listed or none could be processed, otherwise the grouped sums. */
  function Consolidated(registry: Source<RegistryRow>, files: seq<(string, Option<StatementFile>)>,
                        toDate: string -> Option<Date>, toNumeric: string -> Option<real>): Option<seq<(Key, real)>> {
    var (names, cnpjs) := CarregarCadop(registry);
    var arquivos := ArquivosContabeis(files);
    if arquivos == [] then None
    else
      var frames := Staging(arquivos, names, cnpjs, toDate);
      if frames == [] then None
      else Some(GroupSums(Contributions(Concat(frames), toNumeric)))
  }

  /** `transformar_dados`: loads the registry, picks the statement files,
      processes them one by one (a file that raises is skipped), then
      concatenates, converts, drops zeros, takes absolute values and sums
      per key. */
  method TransformarDados(registry: Source<RegistryRow>, files: seq<(string, Option<StatementFile>)>,
                          toDate: string -> Option<Date>, toNumeric: string -> Option<real>)
    returns (output: Option<seq<(Key, real)>>)
    ensures output == Consolidated(registry, files, toDate, toNumeric)
  {
    var (mapaNomes, mapaCnpjs) := CarregarCadop(registry);
    var arquivosContabeis := ArquivosContabeis(files);
    if arquivosContabeis == [] {
      return None;
    }
    var listaDfs: seq<seq<Staged>> := [];
    for i := 0 to |arquivosContabeis|
      invariant listaDfs == Staging(arquivosContabeis[..i], mapaNomes, mapaCnpjs, toDate)
    {
      assert arquivosContabeis[..i + 1][..i] == arquivosContabeis[..i];
      match arquivosContabeis[i].1
      case None =>
      case Some(file) =>
        var df := IngestFile(file, mapaNomes, mapaCnpjs, toDate);
        listaDfs := listaDfs + [df];
    }
    assert arquivosContabeis[..|arquivosContabeis|] == arquivosContabeis;
    if listaDfs == [] {
      return None;
    }
    var dfFinal := Valued(Concat(listaDfs), toNumeric);
    dfFinal := Filter(dfFinal, IsNonZero);
    dfFinal := AbsValues(dfFinal);
    output := Some(GroupSums(dfFinal));
  }

  // ---------------------------------------------------------------------
  // Properties of the consolidated table
  // ---------------------------------------------------------------------

  /** Every contribution is strictly positive. */
  lemma ContributionsPositive(rows: seq<Staged>, toNumeric: string -> Option<real>)
    ensures forall i :: 0 <= i < |Contributions(rows, toNumeric)| ==> Contributions(rows, toNumeric)[i].1 > 0.0
  {
    var nz := Filter(Valued(rows, toNumeric), IsNonZero);
    FilterMembers(Valued(rows, toNumeric), IsNonZero);
    forall i | 0 <= i < |nz| ensures nz[i].1 != 0.0 {
      assert nz[i] in nz;
    }
  }

  /** Whether some row of a keyed table has key `k`. */
  predicate HasRow(rows: seq<(Key, real)>, k: Key) {
    exists i :: 0 <= i < |rows| && rows[i].0 == k
  }

  /** `groupby(key).sum()` on positive values: one row per key that occurs,
      keys pairwise distinct, each value the positive sum of that key's values. */
  lemma GroupSumsSpec(rows: seq<(Key, real)>)
    requires forall i :: 0 <= i < |rows| ==> rows[i].1 > 0.0
    ensures var out := GroupSums(rows);
            && (forall i :: 0 <= i < |out| ==> out[i].1 > 0.0)
            && (forall i, j :: 0 <= i < j < |out| ==> out[i].0 != out[j].0)
            && (forall k :: HasRow(out, k) <==> HasRow(rows, k))
            && (forall i :: 0 <= i < |out| ==> out[i].1 == Total(ValuesFor(rows, out[i].0)))
  {
    var out := GroupSums(rows);
    GroupByDistinct(rows);
    GroupSumsKeys(rows);
    forall i | 0 <= i < |out| ensures out[i].1 == Total(ValuesFor(rows, out[i].0)) && out[i].1 > 0.0 {
      GroupSumsRow(rows, i);
    }
  }

  /** One summed row is the positive sum of its key's values. */
  lemma GroupSumsRow(rows: seq<(Key, real)>, i: nat)
    requires forall i :: 0 <= i < |rows| ==> rows[i].1 > 0.0
    requires i < |GroupSums(rows)|
    ensures GroupSums(rows)[i].1 == Total(ValuesFor(rows, GroupSums(rows)[i].0))
    ensures GroupSums(rows)[i].1 > 0.0
  {
    var gs := GroupBy(rows);
    var g := gs[i];
    GroupByValues(rows);
    GroupByKeys(rows);
    assert g in gs;
    assert HasKey(gs, g.key);
    ValuesForPresent(rows, g.key);
    ValuesForPositive(rows, g.key);
    TotalPositive(g.values);
  }

  /** The summed table has a row for a key exactly when some input row has it. */
  lemma GroupSumsKeys(rows: seq<(Key, real)>)
    ensures forall k :: HasRow(GroupSums(rows), k) <==> HasRow(rows, k)
  {
    var out := GroupSums(rows);
    var gs := GroupBy(rows);
    GroupByKeys(rows);
    forall k ensures HasRow(out, k) <==> HasRow(rows, k) {
      if HasRow(out, k) {
        var i :| 0 <= i < |out| && out[i].0 == k;
        assert gs[i].key == k;
        assert HasKey(gs, k);
      }
      if HasRow(rows, k) {
        assert HasKey(gs, k);
        var i :| 0 <= i < |gs| && gs[i].key == k;
        assert out[i].0 == k;
      }
    }
  }

  /** The output of `transformar_dados`, when there is one: every value is
      positive, the keys are pairwise distinct, there is a row for a key
      exactly when some contribution has it, and its value is the sum of
      the absolute values of that key's non-zero rows. */
  lemma ConsolidatedSpec(registry: Source<RegistryRow>, files: seq<(string, Option<StatementFile>)>,
                         toDate: string -> Option<Date>, toNumeric: string -> Option<real>)
    ensures var out := Consolidated(registry, files, toDate, toNumeric);
            out.Some? ==>
              var (names, cnpjs) := CarregarCadop(registry);
              var rows := Contributions(Concat(Staging(ArquivosContabeis(files), names, cnpjs, toDate)), toNumeric);
              && (forall i :: 0 <= i < |out.value| ==> out.value[i].1 > 0.0)
              && (forall i, j :: 0 <= i < j < |out.value| ==> out.value[i].0 != out.value[j].0)
              && (forall k :: HasRow(out.value, k) <==> HasRow(rows, k))
              && (forall i :: 0 <= i < |out.value| ==> out.value[i].1 == Total(ValuesFor(rows, out.value[i].0)))
  {
    var out := Consolidated(registry, files, toDate, toNumeric);
    if out.Some? {
      var (names, cnpjs) := CarregarCadop(registry);
      var staged := Concat(Staging(ArquivosContabeis(files), names, cnpjs, toDate));
      ContributionsPositive(staged, toNumeric);
      GroupSumsSpec(Contributions(staged, toNumeric));
    }
  }

  /** Appending a row adds its value to the column total. */
  lemma ColumnTotalSnoc(rows: seq<(Key, real)>, last: (Key, real))
    ensures Total(ValueColumn(rows + [last])) == Total(ValueColumn(rows)) + last.1
  {
    assert ValueColumn(rows + [last])[..|rows|] == ValueColumn(rows);
  }

  /** Zero values add nothing, so dropping them keeps the total. */
  lemma {:induction false} TotalDropZeros(rows: seq<(Key, real)>)
    ensures Total(ValueColumn(Filter(rows, IsNonZero))) == Total(ValueColumn(rows))
  {
    if rows != [] {
      var init := rows[..|rows| - 1];
      var last := rows[|rows| - 1];
      TotalDropZeros(init);
      assert rows == init + [last];
      ColumnTotalSnoc(init, last);
      if IsNonZero(last) {
        assert Filter(rows, IsNonZero) == Filter(init, IsNonZero) + [last];
        ColumnTotalSnoc(Filter(init, IsNonZero), last);
      } else {
        assert Filter(rows, IsNonZero) == Filter(init, IsNonZero);
      }
    }
  }

  /** The grand total of the consolidated table is the sum of the absolute
      values of all collected rows: grouping loses nothing. */
  lemma ConsolidatedGrandTotal(rows: seq<Staged>, toNumeric: string -> Option<real>)
    ensures var out := GroupSums(Contributions(rows, toNumeric));
            Total(ValueColumn(out)) == Total(ValueColumn(AbsValues(Valued(rows, toNumeric))))
  {
    var vs := Valued(rows, toNumeric);
    var contributions := Contributions(rows, toNumeric);
    var out := GroupSums(contributions);
    GroupByTotal(contributions);
    GroupSumsTotal(contributions);
    AbsFilterCommute(vs);
    TotalDropZeros(AbsValues(vs));
  }

  /** The summed table carries the groups' grand total. */
  lemma {:induction false} GroupSumsTotal(rows: seq<(Key, real)>)
    ensures Total(ValueColumn(GroupSums(rows))) == GroupsTotal(GroupBy(rows))
  {
    var gs := GroupBy(rows);
    GroupsColumnTotal(gs);
    assert ValueColumn(GroupSums(rows)) == GroupTotalsColumn(gs);
  }

  /** The per-group sums, as a column. */
  function GroupTotalsColumn(gs: seq<Group<Key>>): (vs: seq<real>)
    ensures |vs| == |gs|
    ensures forall i :: 0 <= i < |gs| ==> vs[i] == Total(gs[i].values)
  {
    seq(|gs|, i requires 0 <= i < |gs| => Total(gs[i].values))
  }

  lemma {:induction false} GroupsColumnTotal(gs: seq<Group<Key>>)
    ensures Total(GroupTotalsColumn(gs)) == GroupsTotal(gs)
  {
    if gs != [] {
      GroupsColumnTotal(gs[..|gs| - 1]);
      assert GroupTotalsColumn(gs)[..|gs| - 1] == GroupTotalsColumn(gs[..|gs| - 1]);
    }
  }

  /** Taking absolute values before or after dropping zeros is the same,
      since a value is zero exactly when its absolute value is. */
  lemma {:induction false} AbsFilterCommute(rows: seq<(Key, real)>)
    ensures AbsValues(Filter(rows, IsNonZero)) == Filter(AbsValues(rows), IsNonZero)
  {
    if rows != [] {
      var init := rows[..|rows| - 1];
      var last := rows[|rows| - 1];
      AbsFilterCommute(init);
      assert AbsValues(rows)[..|rows| - 1] == AbsValues(init);
      var kept := Filter(init, IsNonZero);
      if IsNonZero(last) {
        assert AbsValues(kept + [last]) == AbsValues(kept) + [(last.0, Abs(last.1))];
      }
    }
  }

  /** Nothing is written exactly when no listed path is a statement file or
      every statement file failed to be processed. */
  lemma ConsolidatedNone(registry: Source<RegistryRow>, files: seq<(string, Option<StatementFile>)>,
                         toDate: string -> Option<Date>, toNumeric: string -> Option<real>)
    ensures Consolidated(registry, files, toDate, toNumeric).None? <==>
              forall e :: e in files && !Contains(Lower(e.0), "cadop") ==> e.1.None?
  {
    var (names, cnpjs) := CarregarCadop(registry);
    var arquivos := ArquivosContabeis(files);
    ArquivosContabeisMembers(files);
    StagingEmpty(arquivos, names, cnpjs, toDate);
  }

  /** No frame is collected exactly when every file failed. */
  lemma {:induction false} StagingEmpty(arquivos: seq<(string, Option<StatementFile>)>, names: Lookup, cnpjs: Lookup,
                                        toDate: string -> Option<Date>)
    ensures Staging(arquivos, names, cnpjs, toDate) == [] <==> forall e :: e in arquivos ==> e.1.None?
  {
    if arquivos != [] {
      var init := arquivos[..|arquivos| - 1];
      StagingEmpty(init, names, cnpjs, toDate);
      assert arquivos == init + [arquivos[|arquivos| - 1]];
    }
  }
}
