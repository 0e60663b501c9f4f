# Verified model of the expense ETL core

This project models, in Dafny, the data-integrity core of an ETL pipeline for
the quarterly accounting statements of Brazilian health-insurance operators,
and proves properties of that model. The core has three parts:

- **SQL script splitting** (`src/etl/load.py`). `split_sql_statements` cuts a
  script into commands at every `;` that is outside quotes and not escaped by
  a backslash. `clean_comments` drops blank lines and `--` / `#` comment lines.
- **Consolidation** (`src/etl/transformation.py`).
  - `carregar_cadop` builds two dictionaries from the operator registry
    (CADOP): registration number to company name, and registration number to
    CNPJ.
  - The statement files are the listed CSV paths that do not mention `cadop`.
  - `transformar_dados` keeps the expense accounts (codes starting with `4`)
    and attaches name, CNPJ, quarter label and year, each with its fallback.
    It then drops zero values, takes absolute values and sums per
    (CNPJ, RazaoSocial, Trimestre, Ano).
- **Enrichment and aggregation** (`src/etl/analysis/enrichment.py`).
  - `limpar_cnpj` normalises a CNPJ, the Brazilian company tax id, to its
    digits padded to 14.
  - `validar_cnpj_matematicamente` checks its two modulo-11 check digits.
  - `executar_pipeline_completo` parses the value column, flags invalid
    CNPJs without dropping them, and keeps rows that have a company name.
  - It then left-joins the registry, deduplicated on the normalised CNPJ
    (last row wins), filling RegistroANS, Modalidade and UF separately.
  - Finally it aggregates the positive values per
    (RazaoSocial, UF, RegistroANS, Modalidade), with total, mean and sample
    deviation, ordered by total, largest first.

Modules, one file each:

- `Wrappers` (`wrappers.dfy`): `Option`, which stands for a pandas missing
  value.
- `Text` (`text.dfy`): Python's `str.strip` whitespace set, ASCII lower-casing,
  digit filtering, `zfill`, and `split('\n')` / `'\n'.join`.
- `Tables` (`tables.dfy`): the pandas operations the core uses, on sequences
  of rows. These are boolean masks, `Series.apply`, `to_dict` on a
  duplicated index, `drop_duplicates(keep='last')` and `groupby(...).sum()`.
- `SqlScript` (`sql_script.dfy`): `load.py`.
- `Cnpj` (`cnpj.dfy`): the two CNPJ helpers.
- `Consolidation` (`consolidation.dfy`): `transformation.py`.
- `Enrichment` (`enrichment.dfy`): the pipeline of `enrichment.py`.

The source works by changing state in two places, and the model uses
imperative Dafny there:

- the character scanner of `split_sql_statements`;
- the loops of `clean_comments` and `transformar_dados`.

Each of those methods is proved equal to a specification function, and the
properties are proved about that function. The pandas steps of
`executar_pipeline_completo` are whole-column operations with no loop. They
are modelled as a method that reassigns the table step by step, in the
source's order.

Money is `real`, so sums and means are exact. Integers are unbounded. Two
pandas parsers are left abstract:

- `pd.to_numeric(errors='coerce')` is a parameter `toNumeric: string -> Option<real>`.
- `pd.to_datetime(errors='coerce')` is a parameter `toDate: string -> Option<Date>`.

A missing result means the cell could not be parsed. The sample standard
deviation of a group with two or more rows is a parameter `sampleStd`.

### Behaviour of the code worth knowing

- `limpar_cnpj` returns the empty string for a missing value
  (`enrichment.py:17`), not fourteen zeros. It pads with `zfill`, which
  never truncates (`enrichment.py:19`), so a value with more than 14 digits
  stays longer than 14 and is then rejected by the validator.
- A row that finds no registry match gets Modalidade `Desconhecida` only when
  the registry file exists (`enrichment.py:96`). With no registry file the
  code writes `N/D` into all three added columns (`enrichment.py:104-107`).
- `carregar_cadop` keeps the registry CNPJ as read, without normalising it
  (`transformation.py:30`), and that raw text becomes the CNPJ of the
  consolidated row (`transformation.py:72`).
- The test `'Relatorio_cadop' not in f` in the file filter is subsumed by
  `'cadop' not in f.lower()`. `Consolidation.StatementPathIff` proves this.

## Model

| member | source | states |
|---|---|---|
| SqlScript.SplitSqlStatements | src/etl/load.py:34-75 | The one-pass scanner returns `Commands(text)`. That is: the text cut at every top-level `;`, each piece stripped, empty pieces dropped. The loop keeps the quote and escape state equal to `ModeAfter` of the prefix read. |
| SqlScript.Flush | src/etl/load.py:63-66 | Closing a piece appends its stripped text to the commands unless that text is empty. |
| SqlScript.ScanStep | src/etl/load.py:40-68 | One character advances the scanner state by `Step`. A top-level `;` starts a new piece; any other character joins the current piece. |
| SqlScript.KeptStripped | src/etl/load.py:63-65 | Every returned command is non-empty and has no leading or trailing whitespace. |
| SqlScript.JoinPieces | src/etl/load.py:40-68 | Joining the pieces with `;` gives back the input. So every character except the command-ending `;` is kept, in order. |
| SqlScript.PiecesCount | src/etl/load.py:61-66 | There is one piece more than there are command-ending semicolons. |
| SqlScript.NoTopLevelSemicolon | src/etl/load.py:40-75 | Input with no top-level `;` yields one piece, and so at most one command: the stripped input. |
| SqlScript.QuoteIsQuoteChar | src/etl/load.py:58-59 | The open-quote state only ever holds `'` or `"`. |
| SqlScript.QuotedRegion | src/etl/load.py:52-56 | After an opening quote, a stretch without that quote and without a backslash stays quoted. No `;` in it ends a command, the other quote character is ordinary, all of it joins the current piece, and the same quote closes it. |
| SqlScript.ModeInQuote | src/etl/load.py:52-56 | Every prefix of a quoted stretch leaves the scanner inside the quote. |
| SqlScript.EscapedPair | src/etl/load.py:42-50 | A backslash and the character after it both join the current piece. The pair neither splits nor changes the quote state, even when that character is a quote or `;`. |
| SqlScript.CleanComments | src/etl/load.py:77-86 | The loop over the lines returns `Cleaned(content)`: the code lines joined by newlines. |
| SqlScript.CodeLinesMembers | src/etl/load.py:81-85 | A line is kept exactly when it is an input line whose stripped form is non-empty and starts with neither `--` nor `#`. |
| SqlScript.CodeLinesAppend | src/etl/load.py:81-85 | Keeping lines commutes with concatenation, so kept lines stay in input order. |
| SqlScript.CodeLinesAllCode | src/etl/load.py:81-85 | Lines that are all code lines are kept unchanged, indentation included. |
| SqlScript.CleanedLines | src/etl/load.py:79-86 | The lines of the result are exactly the kept lines. With none kept the result is the empty string. |
| SqlScript.CleanCommentsIdempotent | src/etl/load.py:77-86 | `clean_comments` is idempotent. |
| Text.StripSpec | src/etl/load.py:63 | `str.strip` leaves no whitespace at either end and never lengthens. |
| Text.StripIsSlice | src/etl/load.py:71 | The stripped text is a slice of the input with only whitespace cut off on each side. |
| Text.StripEmptyIff | src/etl/load.py:64 | A stripped text is empty exactly when the input is all whitespace. |
| Text.SplitJoinLines | src/etl/load.py:79 | Splitting newline-joined, newline-free lines gives the lines back. |
| Text.JoinSplitLines | src/etl/load.py:86 | Joining the lines of a text with newlines gives the text back. |
| Text.Lower | src/etl/transformation.py:47 | Lower-casing keeps the length and maps each character on its own. |
| Text.Digits | src/etl/analysis/enrichment.py:18 | Dropping the non-digits leaves only digits and never lengthens. |
| Text.DigitsAppend | src/etl/analysis/enrichment.py:18 | Keeping the digits commutes with concatenation, and one character is kept exactly when it is a digit, so every digit of the input survives, in order. |
| Text.DigitsMembers | src/etl/analysis/enrichment.py:18 | A character is in the result exactly when it is a digit of the input. |
| Text.ZFill | src/etl/analysis/enrichment.py:19 | `zfill` pads on the left with `'0'` up to the width and keeps the input as the suffix. |
| Cnpj.Limpar | src/etl/analysis/enrichment.py:13-19 | A missing value gives `''`. A present value gives its digits, in order, after `'0'` padding up to 14 characters. Either way the result is all digits. |
| Cnpj.LimparMissing | src/etl/analysis/enrichment.py:17 | A missing value normalises to the empty string, and an empty one to fourteen zeros. |
| Cnpj.LimparIdempotent | src/etl/analysis/enrichment.py:18-19 | `limpar_cnpj` is idempotent on present values. |
| Cnpj.LimparOfCanonical | src/etl/analysis/enrichment.py:18-19 | A 14-digit id is its own normal form. |
| Cnpj.CheckDigit | src/etl/analysis/enrichment.py:32-33 | A check digit lies in 0..9. It is 0 exactly when the sum mod 11 is below 2; otherwise the sum plus the digit is a multiple of 11. |
| Cnpj.CheckDigitIff | src/etl/analysis/enrichment.py:32-33 | The computed check digit is the only digit that makes the weighted sum a multiple of 11, or 0 when the remainder is 1 and no digit can. |
| Cnpj.ValidarIff | src/etl/analysis/enrichment.py:21-42 | The validator is true exactly when the normalised id has 14 characters, not all equal, and digits 13 and 14 each make their weighted sum a multiple of 11 (or are 0 where no digit can). |
| Cnpj.ValidarRejects | src/etl/analysis/enrichment.py:25-28 | These are invalid: a missing id, an id with more than 14 digits, and an id that normalises to one repeated character. |
| Cnpj.WeightedSumOfZeros | src/etl/analysis/enrichment.py:31 | Zero digits contribute nothing to a weighted sum. |
| Cnpj.ZerosPassChecksumOnly | src/etl/analysis/enrichment.py:27 | Fourteen zeros satisfy both check-digit equations, so only the repeated-digit rule rejects them. |
| Cnpj.ValidarOfKey | src/etl/analysis/enrichment.py:25 | Validating the normalised key is the same as validating the raw value. |
| Cnpj.ValidarCanonical | src/etl/analysis/enrichment.py:27-42 | For a 14-digit id, valid means not all one digit and passing the checksum. |
| Cnpj.ValidarByDigits | src/etl/analysis/enrichment.py:18 | Two inputs with the same digits get the same verdict: punctuation is ignored. |
| Cnpj.ChecksumFirstCheckDigit | src/etl/analysis/enrichment.py:30-35 | Two ids that agree on the first 12 digits but differ in digit 13 cannot both pass the checksum. |
| Cnpj.ChecksumLastDigit | src/etl/analysis/enrichment.py:37-42 | Two ids that agree on the first 13 digits but differ in digit 14 cannot both pass the checksum. |
| Cnpj.FirstCheckDigitChangeDetected | src/etl/analysis/enrichment.py:30-35 | Changing digit 13 of a valid id makes it invalid. |
| Cnpj.LastDigitChangeDetected | src/etl/analysis/enrichment.py:37-42 | Changing digit 14 of a valid id makes it invalid. |
| Cnpj.ReferenceChecksum | src/etl/analysis/enrichment.py:30-42 | `11444777000161` satisfies both check-digit equations. |
| Cnpj.ReferenceValid | src/etl/analysis/enrichment.py:21-42 | `11444777000161` is valid. |
| Cnpj.ReferenceChangedInvalid | src/etl/analysis/enrichment.py:37-42 | `11444777000162`, the same id with its last digit changed, is invalid. |
| Cnpj.ReferenceFormattedValid | src/etl/analysis/enrichment.py:18-42 | The formatted `11.444.777/0001-61` is valid. |
| Tables.FilterMembers | src/etl/transformation.py:69 | A boolean mask keeps exactly the rows that satisfy it. |
| Tables.FilterAppend | src/etl/transformation.py:69 | Masking commutes with concatenation, so kept rows stay in order. |
| Tables.FilterMap | src/etl/analysis/enrichment.py:63-66 | A mask that only looks at what a row function keeps can be applied before that function instead of after it. |
| Tables.LastWinsLookup | src/etl/transformation.py:27 | A dictionary from a column with a duplicated index lacks a key exactly when no row has it. Otherwise it holds the value of the last row with that key. |
| Tables.LastWinsBy | src/etl/analysis/enrichment.py:80-81 | After `drop_duplicates(keep='last')` a key is present exactly when some row has it, and then it holds the last such row. |
| Tables.GroupByDistinct | src/etl/transformation.py:123 | `groupby` yields pairwise distinct keys. |
| Tables.GroupByKeys | src/etl/transformation.py:123 | `groupby` has a group for a key exactly when some row has it. |
| Tables.GroupByValues | src/etl/transformation.py:123 | Each group holds exactly the values of the rows with its key, in input order. |
| Tables.GroupByTotal | src/etl/transformation.py:123 | The groups' sums add up to the sum of all values. |
| Tables.ValuesForPositive | src/etl/analysis/enrichment.py:121 | Among positive values, every group's values are positive. |
| Consolidation.CarregarCadop | src/etl/transformation.py:13-36 | A missing or unreadable registry gives two empty dictionaries. |
| Consolidation.CarregarCadopLastWins | src/etl/transformation.py:27-30 | Both dictionaries have a registration number exactly when some registry row has it. Both then hold the last such row's name and CNPJ. |
| Consolidation.StatementPathIff | src/etl/transformation.py:45-48 | A path passes the filter exactly when its lower-cased form does not contain `cadop`. |
| Consolidation.ArquivosContabeisMembers | src/etl/transformation.py:45-48 | The statement files are exactly the listed entries whose lower-cased path does not contain `cadop`. |
| Consolidation.Quarter | src/etl/transformation.py:90 | Months 1-3, 4-6, 7-9 and 10-12 give exactly `1T`, `2T`, `3T` and `4T`. |
| Consolidation.IngestRow | src/etl/transformation.py:71-103 | RazaoSocial is the registry name when the registry has one for REG_ANS, otherwise `Operadora <REG_ANS>`. CNPJ is the registry CNPJ when present, otherwise REG_ANS. With a DATA column and a parsed date, Trimestre is the date's quarter and Ano its year. Without a DATA column, or with a missing or unparseable date, they are `N/D` and 2025. The value is the row's cell when the file has a value column, otherwise missing. |
| Consolidation.IngestFileAppend | src/etl/transformation.py:68-105 | A file is processed row by row. Splitting its rows splits what it contributes, and one row contributes its keyed form exactly when its account code starts with `4`. So the staged rows are the file's expense rows, in file order. |
| Consolidation.IngestFileMembers | src/etl/transformation.py:68-105 | A staged row is the keyed form of some row whose account code starts with `4`, and every such row is staged. |
| Consolidation.TransformarDados | src/etl/transformation.py:38-123 | The loop over the files, with failed files skipped, returns `Consolidated(...)`. |
| Consolidation.ConsolidatedNone | src/etl/transformation.py:50-52 | Nothing is written exactly when no listed path is a statement file, or every statement file failed. |
| Consolidation.StagingEmpty | src/etl/transformation.py:57-110 | The loop collects no frame exactly when every file failed. |
| Consolidation.ContributionsPositive | src/etl/transformation.py:117-119 | After dropping zeros and taking absolute values, every value is positive. |
| Consolidation.GroupSumsSpec | src/etl/transformation.py:123 | The sum per key of positive values has positive values and pairwise distinct keys. It has a row for a key exactly when some input row has it, and that row's value is the sum of the key's values. |
| Consolidation.GroupSumsRow | src/etl/transformation.py:123 | Each summed row is the positive sum of its key's values. |
| Consolidation.GroupSumsKeys | src/etl/transformation.py:123 | The summed table has a row for a key exactly when some input row has it. |
| Consolidation.ConsolidatedSpec | src/etl/transformation.py:117-123 | In the consolidated table, values are positive and (CNPJ, RazaoSocial, Trimestre, Ano) keys are pairwise distinct. Each value is the sum of `abs` over the key's non-zero rows. |
| Consolidation.TotalDropZeros | src/etl/transformation.py:118 | Dropping zero values keeps the total. |
| Consolidation.AbsFilterCommute | src/etl/transformation.py:118-119 | Taking absolute values before or after dropping zeros gives the same rows. |
| Consolidation.GroupSumsTotal | src/etl/transformation.py:123 | The summed table's total is the groups' total. |
| Consolidation.ConsolidatedGrandTotal | src/etl/transformation.py:117-123 | The grand total is the sum of the absolute values of all collected rows: nothing is lost. |
| Enrichment.ReplaceComma | src/etl/analysis/enrichment.py:57 | The decimal-comma substitution keeps the length, turns every `,` into `.` and leaves no comma. |
| Enrichment.Valor | src/etl/analysis/enrichment.py:57 | The value is the parse of the cell with `,` replaced by `.`. It is 0 when the cell is missing or does not parse, and a non-zero value always comes from a successful parse. |
| Enrichment.ValorDecimalComma | src/etl/analysis/enrichment.py:57 | A decimal comma reads as a decimal point: a cell and its comma-free form get the same value. |
| Enrichment.Prepare | src/etl/analysis/enrichment.py:57-58 | Each row keeps its data, and gains the value `Valor` gives its cell and the normalised CNPJ as its key. |
| Enrichment.PrepareFlag | src/etl/analysis/enrichment.py:63 | The flag computed on the key equals the validity of the raw CNPJ. |
| Enrichment.NameFilterCommutes | src/etl/analysis/enrichment.py:63-66 | The only rows removed are those with a missing or empty RazaoSocial; the validity flag removes none. |
| Enrichment.Enrich | src/etl/analysis/enrichment.py:84-109 | The left join yields one row per input row, in order, with the same data, value and flag. With a registry file each row is joined with the deduplicated registry, as `JoinSpec` describes. Without one all three added columns are `N/D`. |
| Enrichment.JoinSpec | src/etl/analysis/enrichment.py:80-97 | The added columns come from the last registry row with the same normalised CNPJ, each filled on its own (`N/D`, `Desconhecida`, `N/D`). With no such row, all three are those fills. |
| Enrichment.Mean | src/etl/analysis/enrichment.py:128 | The mean times the group size is the group total. |
| Enrichment.AggOfSpec | src/etl/analysis/enrichment.py:126-133 | A group of positive values gets a positive total, its mean, and deviation 0 when it has one row. |
| Enrichment.AggregateRow | src/etl/analysis/enrichment.py:126-133 | Each aggregate row has the sum and mean of its group's values, and deviation 0 for a single row. |
| Enrichment.AggregateKeys | src/etl/analysis/enrichment.py:124-130 | The aggregate has a row for a (RazaoSocial, UF, RegistroANS, Modalidade) key exactly when some input row has it. |
| Enrichment.AggregateSpec | src/etl/analysis/enrichment.py:124-133 | The aggregate has pairwise distinct keys and one row per key present, and each row holds its group's statistics. |
| Enrichment.InsertAt | src/etl/analysis/enrichment.py:134 | Insertion places the new row at one position and leaves the others in order around it. |
| Enrichment.InsertSorted | src/etl/analysis/enrichment.py:134 | Inserting into a table ordered by total, largest first, keeps it ordered. |
| Enrichment.SortDescSorted | src/etl/analysis/enrichment.py:134 | The sorted aggregate is ordered by total, non-increasing. |
| Enrichment.SortDescPermutes | src/etl/analysis/enrichment.py:134 | Sorting is a permutation: the same rows, as a multiset. |
| Enrichment.SortDescDistinct | src/etl/analysis/enrichment.py:134 | Sorting keeps the group keys pairwise distinct. |
| Enrichment.SortedAggregateSpec | src/etl/analysis/enrichment.py:121-134 | For positive input rows the sorted aggregate is ordered by total, with pairwise distinct keys. There is one row per key present, and each row holds its group's statistics. |
| Enrichment.ExecutarPipelineCompleto | src/etl/analysis/enrichment.py:44-134 | Nothing is produced exactly when the consolidated file is missing. Otherwise the step-by-step reassignment yields `Pipeline(...)`. |
| Enrichment.JoinedRow | src/etl/analysis/enrichment.py:80-97 | A consolidated row, once prepared and joined, carries the registry columns of the last registry row with its normalised CNPJ, each filled on its own, or the three fills when none matches. |
| Enrichment.PipelineJoined | src/etl/analysis/enrichment.py:73-100 | With a registry file, every row of the written enriched table carries the registry columns of the last registry row with the same normalised CNPJ, each filled on its own, or `N/D`, `Desconhecida` and `N/D` when none matches. |
| Enrichment.PipelineEnriched | src/etl/analysis/enrichment.py:57-109 | The enriched table has one row per named input row, in order. Each carries its data, its parsed value and the validity of its CNPJ. |
| Enrichment.EnrichedNamed | src/etl/analysis/enrichment.py:66 | Every enriched row has a present, non-empty RazaoSocial. |
| Enrichment.PositiveRows | src/etl/analysis/enrichment.py:121 | The statistics only see rows with a positive value. |
| Enrichment.PipelineAggregate | src/etl/analysis/enrichment.py:121-134 | The written aggregate covers only positive rows. It is ordered by total, with one row per distinct (RazaoSocial, UF, RegistroANS, Modalidade). Each row's total is its group's sum, its mean the group mean, and its deviation 0 for one row. |

## Left out

- The CSV, ZIP and database I/O is left out:
  - reading and writing CSV files, encodings, `float_format`, printing;
  - the ZIP archive (`transformation.py:125-132`);
  - the database functions of `load.py` (`get_db_connection`, `execute_sql_file`, `run_load`).
  The model's inputs are rows, and its outputs are the tables that would be written.
- Which files exist is an input, not something the model discovers:
  - `glob` directory traversal is left out; the list of paths is an input;
  - a missing file is `None`;
  - a statement file whose reading or processing raises (for example, a
    missing `CD_CONTA_CONTABIL` or `REG_ANS` column) is a `None` entry.
- `src/etl/extraction.py` is not part of this model. It does HTTP download,
  unzipping, and date arithmetic against the current clock.
- The exact behaviour of `pd.to_numeric` and `pd.to_datetime` is not
  modelled. This includes the `thousands='.'` reading option. Both are
  abstract partial parsers supplied by the caller.
- The model treats every grouping key as present. So pandas dropping rows
  whose group key is NaN is not modelled. In the same way, `REG_ANS`,
  `REGISTRO_OPERADORA` and the account code are taken as present text. The
  account code arrives already converted by `astype(str)`.
- `Text.Lower`: only ASCII letters are lower-cased. The model uses it only to
  search for `cadop`, and no non-ASCII character lower-cases to any of the
  letters `c`, `a`, `d`, `o` or `p`.
- `Enrichment.AggOfSpec`: the model does not compute the sample standard
  deviation of a group with two or more rows. That value comes from the
  `sampleStd` parameter, and only the one-row rule (NaN filled with 0) is
  modelled. The mean is an exact rational, not a float.
- `Consolidation.GroupSums`: groups come out in order of first appearance,
  whereas pandas sorts the group keys. The set of rows and their values are
  the same either way.
- `Enrichment.SortDescSorted`: the sort is insertion sort, so rows with equal
  totals may keep a different relative order than pandas' unstable quicksort
  would give. Only the ordering by total and the permutation are claimed.
- Float rounding of the money values is not modelled: sums are exact reals.
- Two ways `executar_pipeline_completo` raises are not modelled, because the
  model's tables have fixed columns and its registry input is either present
  or absent:
  - the registry read (`enrichment.py:74-77`) has no `try`, so an unreadable
    registry file, or one missing a `usecols` column, aborts the whole stage;
  - the stage overwrites `consolidado.csv` with the added columns
    (`enrichment.py:114`). On a second run the merge (`enrichment.py:84-89`)
    then suffixes the clashing columns to `Modalidade_x`/`_y` and
    `UF_x`/`_y`, and the rename (`enrichment.py:92`) creates a second
    `RegistroANS`. By `enrichment.py:96` no `Modalidade` column is left, so
    the stage raises `KeyError`.
    The model describes a first run on a five-column `consolidado.csv`.
