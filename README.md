# Artworks report: data shaping and configuration

This project models the logic at the centre of the artworks report scripts. Both scripts query
the Art Institute of Chicago search API and set up a PDF page. Only app/artworks-report-script.py
fills the PDF with the shaped records and writes it (`reportFilling`). In app/__main__.py,
`search_artworks` never calls `reportFilling`: the call is commented out, so that script's PDF
is never filled or written. What is modelled:

- **app/artworks-report-script.py, `search_artworks`.** The decoded response's `data` list is
  cut to `artworks` items with a Python slice. The `--fields` string is split on commas.
  A loop then projects every record onto the requested fields with a dict comprehension and
  appends each projection to a new list. A missing response key or record field raises, and the
  report is never filled.
- **app/__main__.py.** The loaded YAML document's first `reports` entry is selected, and
  `name`, `search`, `fields`, `max_items` and `recipients` are read from it with `dict.get`.
  `search_artworks` builds the `{q, fields, size}` query parameters and cuts the response's
  `data` list in the same way.

Python values are the datatype `Values.Value` (string, integer, None, list, mapping). Python
exceptions are `Values.PyError` (KeyError with its key, IndexError, TypeError, AttributeError),
returned through `Values.Result`. The error kinds follow Python's own rules for subscripting,
`dict.get`, `str.split` and slicing:

- `None[0]` raises TypeError.
- `[][0]` raises IndexError.
- `record["title"]` raises KeyError when the key is missing, and TypeError when the record is a
  list or a string.

A dict built by the comprehension is an ordered `Values.Record`, a sequence of key/value pairs.
This keeps the insertion order, which the results depend on.

Modules: `Values` (Python values and built-ins), `Strings` (split and join), `Response`
(`json_data["data"][:artworks]`, which both scripts contain), `ReportScript` and `ReportMain`
(one per source file).

Two policies of the code are modelled as written:

- A requested field that a record lacks raises KeyError; no null is substituted for it.
- The configuration is not validated: absent keys read as None, and a missing or empty
  `reports` fails with Python's own TypeError or IndexError.

## Model

| member | source | states |
|---|---|---|
| Response.TruncatedData | app/artworks-report-script.py:40 | a non-mapping response raises TypeError and a mapping without `data` raises KeyError('data'); a list is cut to a prefix of itself, of length min(N, artworks) for artworks >= 0, max(0, N + artworks) for a negative limit, and the whole list for None |
| Strings.Split | app/artworks-report-script.py:41 | `fields.split(',')` yields at least one part and no part contains a comma |
| Strings.SplitCount | app/artworks-report-script.py:41 | the number of parts is the number of commas plus one |
| Strings.JoinOfSplit | app/artworks-report-script.py:41 | joining the parts with ',' gives back the field string exactly |
| Strings.SplitOfJoin | app/artworks-report-script.py:41 | splitting a comma-join of one or more comma-free names gives back those names |
| ReportScript.DistinctElements | app/artworks-report-script.py:45 | the keys a comprehension over `field_list` produces are exactly the names in `field_list` |
| ReportScript.DistinctNoDuplicates | app/artworks-report-script.py:45 | duplicate field names collapse to one key |
| ReportScript.DistinctOrder | app/artworks-report-script.py:45 | the keys come in the order of each name's first occurrence in `field_list` |
| ReportScript.DistinctOfDistinct | app/artworks-report-script.py:45 | with no repeated field name the keys are `field_list` itself, in order |
| ReportScript.ProjectItem | app/artworks-report-script.py:45 | the comprehension over `field_list`, evaluated left to right; a successful dict has the keys Distinct(field_list); its other properties are stated by ProjectItemSucceeds, ProjectItemShape, ProjectItemMissingField and ProjectItemNotMapping |
| ReportScript.ProjectItemSucceeds | app/artworks-report-script.py:45 | projecting a record succeeds exactly when it is a mapping holding every requested field (or no field is requested) |
| ReportScript.ProjectItemShape | app/artworks-report-script.py:45 | a successful projection has keys equal to the distinct requested names in first-occurrence order, and each value is `item[field]` unchanged, so nothing unrequested appears |
| ReportScript.ProjectItemMissingField | app/artworks-report-script.py:45 | the KeyError carries the first requested field that the record lacks |
| ReportScript.ProjectItemNotMapping | app/artworks-report-script.py:45 | a record that is not a mapping raises TypeError on the first field |
| ReportScript.ProjectAll | app/artworks-report-script.py:43-46 | the append loop as a function: a successful list has one dict per record; ProjectAllSucceeds, ProjectAllFirstError and ProjectAllResult state the rest, and FilterData is proved equal to it |
| ReportScript.ProjectAllSucceeds | app/artworks-report-script.py:43-46 | when every record projects, the list holds the projections in record order |
| ReportScript.ProjectAllFirstError | app/artworks-report-script.py:43-46 | the error of the first failing record is the error of the whole loop |
| ReportScript.ProjectAllResult | app/artworks-report-script.py:43-46 | a successful list has one entry per record, the k-th being the projection of the k-th record |
| ReportScript.ProjectAllOutcome | app/artworks-report-script.py:43-46 | with at least one requested field, the loop succeeds exactly when every record is a mapping holding every field, and the k-th dict is then the projection of the k-th record |
| ReportScript.FilterData | app/artworks-report-script.py:43-46 | the append loop returns exactly the record-by-record projection, or the first record's exception |
| ReportScript.Shape | app/artworks-report-script.py:39-46 | a response without `data` fails with KeyError before any splitting or projection; a non-mapping response fails with TypeError; a field argument that is not a string has no `split` |
| ReportScript.SearchArtworks | app/artworks-report-script.py:35-51 | truncation, split and the projection loop, in the script's order, produce the specified shaped result |
| ReportScript.ShapeOutcome | app/artworks-report-script.py:39-46 | for a list of records and artworks >= 0, the call succeeds exactly when every kept record has every requested field; it then returns min(N, artworks) entries, the k-th being the projection of the k-th record |
| ReportScript.MissingFieldFails | app/artworks-report-script.py:40-48 | if the first kept record that fails to project is a mapping, the call fails with KeyError for that record's first missing field, and no filtered list is returned for the report |
| ReportMain.SelectReport | app/__main__.py:20-21 | the selected config is element 0 of `reports`; a non-mapping document raises AttributeError, a missing or null `reports` TypeError, an empty list IndexError, a mapping KeyError(0) |
| ReportMain.ExtractSettings | app/__main__.py:26-30 | each of the five settings is the entry's value when the key is present and None otherwise, with no validation; an entry that is not a mapping raises AttributeError |
| ReportMain.LoadSettings | app/__main__.py:20-30 | the configuration steps from the loaded document to the five settings succeed exactly when `reports` is a non-empty list whose first entry is a mapping, and the settings are then read from that entry |
| ReportMain.QueryParams | app/__main__.py:52-56 | the params dict has exactly the keys q, fields, size, in that order, mapped to search, fields and artworks |
| ReportMain.SearchArtworks | app/__main__.py:51-65 | the response to those parameters without `data` fails with KeyError('data'); a list of records comes back as its prefix of length min(N, artworks) for artworks >= 0 |

## Left out

- HTTP requests and JSON decoding (`requests.get`, `response.json()`): network I/O done by a library. In the script, the decoded response is an input. In `ReportMain.SearchArtworks`, the request is the function parameter `fetch` from query parameters to the decoded response. The script's decoded response input stands for the reply to a request built from `search` alone, which is why `ReportScript.SearchArtworks` takes no `search` parameter.
- `open` and `yaml.safe_load`, and all `argparse` use: file I/O and library parsing. The loaded document is an input value.
- `fpdf` page setup, `reportFilling` and `pdf.output`: they mutate a third-party PDF object and write a file. Only app/artworks-report-script.py calls `reportFilling` (line 48), after the projection loop and before `return filtered_data`. There, a failed `ReportScript.Shape` result stands for the report never being filled. `reportFilling` can itself raise: `pdf.output` may fail to write the file, or a record's text may hold a character the core Arial font cannot encode. So an Ok from `ReportScript.Shape` does not mean the Python call returns. app/__main__.py sets up its PDF page (lines 32-36) but never fills or writes it.
- `print` logging and the module-level calls: glue only. The call at the end of app/__main__.py uses hard-coded arguments and ignores the loaded settings.
- The `email` parameter: the code accepts it but never uses it. No mail sending exists in the code.
- Floats, booleans and non-string mapping keys in decoded values are not modelled. The insertion order of input mappings is not modelled either. The projection code only looks keys up in them; the one exception is `search_artworks` in app/__main__.py, which returns the raw record mappings themselves, so the key order of those returned records is not captured.
- Slicing a mapping raises TypeError in the model. Python 3.12 and later raise KeyError instead, because slices became hashable. Either way the call fails.
