# busca_cep — a Dafny model of the CEP lookup core

The modelled program is a Streamlit script (`consulta_cep.py`) that looks up
Brazilian postal codes (CEPs) against the ViaCEP address service, either one
code typed by the user or a column of codes read from an Excel sheet, and
offers the results as a workbook with a "found" and an "invalid" sheet.

The model covers the logic inside that glue:

- `Cep` (cep.dfy): normalisation of a code, `str(cep).replace('-', '')`.
- `Lookup` (lookup.dfy): `obter_endereco_por_cep`. The HTTP exchange is a
  parameter, `Service = string -> Reply`, where a `Reply` is either
  `Failure` (any `requests.RequestException`: connection error, the
  5-second timeout, a non-2xx status from `raise_for_status`, an
  undecodable body) or `Body(json)` with the decoded object as a map from
  keys to text. The lookup gives `None` on failure or when the body has the
  key `"erro"`, and the body unchanged otherwise. `Truthy` is Python's
  `if endereco:`, under which an empty body also counts as a miss.
- `Batch` (batch.dfy): `processar_planilha` and `processar_cep_unico`.
  The sheet's CEP column is a `seq<Option<string>>` (`None` is a missing
  cell). `DropMissing` is `dropna()`. `ConsultCodes` is the `for` loop that
  appends each code either to `found` (the code as written plus Logradouro,
  Bairro, Localidade and UF, each `""` when the body lacks the key) or to
  `invalid` (the code alone). The loop is proved against the specification
  function `Partition`, which builds the two tables (a `Report`), and the
  lemmas state what the program promises about `Partition`.
- `Export` (export.dfy): the check at line 162 (anything to show?) and the
  sheets written at lines 174-179. A workbook is the list of its sheets in
  writing order. Each sheet holds its table of records.
- `Sequences` (sequences.dfy): the subsequence relation used for "keeps input order".

Details of the code that the model keeps:

- Normalisation only removes hyphens. It does not trim whitespace.
- The response keys read are `logradouro`, `bairro`, `localidade` and `uf`.
- A response is a hit only if it is non-empty as well as free of `"erro"`,
  because of the truthiness test at lines 48 and 78.

## Model

| member | source | states |
|---|---|---|
| Cep.StripHyphens | consulta_cep.py:45 | the normalised code contains no hyphen |
| Cep.StripHyphensKeepsOrder | consulta_cep.py:45 | the normalised code is a subsequence of the original: the remaining characters keep their order |
| Cep.StripHyphensCounts | consulta_cep.py:75 | only hyphens are removed: every other character keeps its number of occurrences, and the length drops by the number of hyphens |
| Cep.StripHyphensConcat | consulta_cep.py:45 | normalising a concatenation is concatenating the normalised parts |
| Cep.StripHyphensKeepsPlainCode | consulta_cep.py:75 | a code without hyphens is left unchanged |
| Cep.StripHyphensIdempotent | consulta_cep.py:45 | normalising twice equals normalising once |
| Cep.HyphenInsensitive | consulta_cep.py:45-46 | inserting a hyphen anywhere in a code does not change its normal form, so the service receives the same argument |
| Cep.HyphenatedNormalForm | consulta_cep.py:75-76 | a code `a-b` whose parts have no hyphen is sent to the service as `ab` |
| Cep.TemplateCodeNormalForm | consulta_cep.py:117 | the template's sample code "01001-000" is sent as "01001000" |
| Lookup.FetchAddress | consulta_cep.py:17-24 | no address exactly when the request fails or the body has the key "erro"; otherwise the body returned unchanged |
| Lookup.TruthyLookup | consulta_cep.py:19-24 | a lookup passes `if endereco:` exactly when the service answered with a non-empty body without "erro" |
| Batch.DropMissing | consulta_cep.py:38 | `dropna()` keeps one code per present cell, in row order (a subsequence of the column with length equal to the number of present cells) |
| Batch.ConsultCodes | consulta_cep.py:40-57 | the loop builds exactly the report `Partition` specifies for the present codes |
| Batch.ProcessSheet | consulta_cep.py:37-63 | the batch report is `Partition` of the present codes, and found plus invalid rows equal the number of non-missing cells |
| Batch.ProcessSingle | consulta_cep.py:65-88 | a row is returned exactly when the code resolves, and it is the found row the batch would produce for the one-code column `[c]`; otherwise the batch would record `c` as invalid |
| Batch.PartitionIsPermutation | consulta_cep.py:44-57 | the codes of the found table and of the invalid table together are the input codes as a multiset: every code yields exactly one row, duplicates included |
| Batch.PartitionCount | consulta_cep.py:44-57 | found rows plus invalid rows equal the number of input codes |
| Batch.FoundMembership | consulta_cep.py:48-55 | a code is in the found table iff it is an input code whose lookup is truthy |
| Batch.InvalidMembership | consulta_cep.py:56-57 | a code is in the invalid table iff it is an input code whose lookup is not truthy |
| Batch.ExactlyOneTable | consulta_cep.py:48-57 | each input code is in exactly one of the two tables |
| Batch.PartitionKeepsInputOrder | consulta_cep.py:44-57 | the codes of each table form a subsequence of the input: row order is kept |
| Batch.FoundRowsDescribeAddresses | consulta_cep.py:49-55 | each found row holds a resolving code as written, and each address field is the body's value for its key or "" when the key is absent |
| Batch.InvalidRowsAreUnresolved | consulta_cep.py:56-57 | each invalid row holds an input code, as written, whose lookup is not truthy |
| Batch.PartitionCodesStep | consulta_cep.py:48-57 | putting a code in front adds it to the head of exactly one table's code column and leaves the other table unchanged |
| Batch.PartitionCons | consulta_cep.py:44-57 | the batch applies the single-code decision of `processar_cep_unico` to each row in turn |
| Batch.SameNormalFormSameOutcome | consulta_cep.py:75-78 | two codes with the same normal form get the same verdict and, when found, rows that differ only in the CEP column |
| Batch.HyphenatedCodeSameOutcome | consulta_cep.py:75-76 | "a-b" and "ab" get the same verdict and the same address fields |
| Batch.KnownCodeExample | consulta_cep.py:75-86 | "01001-000" yields the Praça da Sé row when the service answers that address for "01001000" |
| Batch.UnknownCodeExample | consulta_cep.py:75-88 | "00000-000" yields no row when the service flags "00000000" with "erro" |
| Batch.TwoRowSheetExample | consulta_cep.py:44-57 | the column ["01001-000", "00000-000"] gives one found row with the Praça da Sé address and one invalid row |
| Export.Workbook | consulta_cep.py:174-179 | the sheet "CEPs encontrados" is written iff there are found rows, and "CEPs inválidos" iff there are invalid rows. No other sheet is written. Each sheet holds exactly its table, the found sheet comes first, and the sheet count is the number of non-empty tables |
| Export.ExportResults | consulta_cep.py:162 | no results file when both tables are empty; otherwise the workbook, with at least one sheet |
| Export.ExportIffCodesPresent | consulta_cep.py:159-162 | a batch run offers a results file iff the CEP column has at least one present cell |

## Left out

- The HTTP request itself (URL, 5-second timeout, `raise_for_status`, JSON decoding) is a foreign library: it is the `Service` parameter. The model assumes the service answers the same way for the same code within one run. Time-varying answers, such as a transient failure on one of two duplicate rows, are not modelled.
- JSON values that are not text (numbers, `null`, nested objects), and bodies that are not JSON objects, are not modelled: a response is a map from keys to text.
- `str(cep)` coercion of non-text cells (a numeric cell losing its leading zeros) is pandas/Python conversion behaviour: cells are taken to be text already.
- `time.sleep(0.3)` between rows and `st.spinner` are timing and UI effects with no logical content.
- Reading the workbook (`pd.read_excel`, sheet and column "CEP") and writing it (`pd.ExcelWriter`, openpyxl, `BytesIO`) are file-format I/O: the column is a `seq<Option<string>>` and the workbook a list of named sheets.
- The Streamlit page is UI and is not part of this model: rendering, buttons, uploads, downloads, and the empty-input warning at lines 140-148.
- The constant template sheet (lines 116-123) is fixed data. Only its sample code "01001-000" appears, in `Cep.TemplateCodeNormalForm`.
