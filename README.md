# Fingerprint attendance check — verified model

The service answers `POST /verificar` with a captured fingerprint hash
(`huella`). It reads the roster of registered fingerprints from the sheet
range `RegistroHuella!A:B`. Column A holds the identifier (DNI) and column B
the hash. When the hash is registered, the service appends one attendance
row `[dni, date, time, "Almuerzo"]` to `RegistroHuella!C:F` and answers 200
with the DNI. A hash that is not registered gets 404. A missing or empty
hash gets 400.

The model has three modules:

- `Wrappers`: the `Option` type.
- `Roster`: the roster built from the fetched rows (`BuildRoster`) and from
  the fetch outcome (`FetchRoster`). `BuildRoster` is the dictionary
  comprehension of `obtener_hashes_registrados`, written as a fold in sheet
  order. The lemmas describe the resulting map without referring to the fold:
  which keys it has, which row wins on a duplicate hash, and which cells it
  ignores.
- `Verification`: the handler `verificar_huella`. `Decide` is the pure
  400/200/404 decision and `Respond` is the payload for each outcome.
  `Spreadsheet.Verify` is the request itself. It is a method on a class whose
  `attendance` field stands for the range `C:F`, and it extends that field in
  place on a hit only.

The remote read is an input: `Some(rows)` is the list of rows the API
returned and `None` is any exception it raised. The date and time strings
are opaque inputs.

## Model

| member | source | states |
|---|---|---|
| `Roster.BuildRoster` | server.py:29 | the comprehension in sheet order yields at most one roster entry per fetched row; its keys, its values and the last-one-wins rule are stated by `Roster.RosterKeys`, `Roster.RosterLastWins` and `Roster.RosterValueFromLastRow` |
| `Roster.FetchRoster` | server.py:24-34 | a failed read (any exception) yields the empty roster; a successful read yields the roster of the fetched rows, at most one entry per row |
| `Roster.RosterKeys` | server.py:29 | a hash is a key of the roster iff some fetched row has at least two cells and that hash as its second cell |
| `Roster.RosterLastWins` | server.py:29 | when several rows share a hash, the roster maps it to the first cell of the last such row in sheet order |
| `Roster.RosterValueFromLastRow` | server.py:29 | every roster entry comes from a row that registers its hash, that row's first cell is the DNI, and no later row registers the same hash |
| `Roster.ShortRowIgnored` | server.py:29 | inserting a row of zero or one cell anywhere in the fetched rows leaves the roster unchanged |
| `Roster.ExtraCellsIgnored` | server.py:29 | two row lists whose rows agree on length-at-least-two and on their first two cells give the same roster, so cells past the second never matter |
| `Verification.Decide` | server.py:39-47 | a missing or empty hash gives 400 whatever the roster holds; otherwise the hash is recognised iff it is a key of the roster, with the DNI the roster maps it to; anything else is not found |
| `Verification.Respond` | server.py:41-61 | status 200, `"success"`, the DNI and "Huella validada" exactly for a recognised hash; status 400, `"error"` and "No se recibió una huella válida" exactly for a missing one; status 404, `"error"` and "Huella no encontrada" exactly for a miss; a DNI only on success |
| `Verification.AttendanceRow` | server.py:50 | the appended row has four cells: the DNI, the date, the time and the label "Almuerzo", in that order |
| `Verification.Spreadsheet.Verify` | server.py:36-61 | the response is the decision over the fetched roster; on 200 the attendance log is the old log plus exactly one row for the returned DNI, date and time; on every other path the log is unchanged |
| `Verification.RecognizedIffRegistered` | server.py:29-47 | a non-empty hash is recognised iff some fetched row registers it, and the DNI returned is the first cell of the last such row |
| `Verification.FetchFailureNeverRecognizes` | server.py:32-34 | when the roster read fails, every hash that is not missing gets 404 |
| `Verification.MissingIndependentOfRoster` | server.py:41-42 | a missing or empty hash gets the same 400 decision under any two rosters |
| `Verification.Scenario` | server.py:29-61 | with one row registering "abc123" for DNI "12345678", "abc123" is recognised with that DNI, "zzz" is not found and the empty hash is a bad request |

## Left out

- Credential loading and the startup failure (server.py:14-21) are not modelled. They are environment and JSON parsing plus calls into the Google client library.
- The Google Sheets calls are not modelled (server.py:26, server.py:51-56). The read is an `Option` input, and the append is an update of the `attendance` field.
- A failing append is not modelled. The source does not catch it there, so the framework would answer with a server error after the DNI was resolved.
- Flask routing, `request.get_json()`, `jsonify` and the crash on a body that is not JSON are not modelled. They are HTTP plumbing.
- `time.strftime` (server.py:50) reads the wall clock. The date and time are opaque string inputs.
- The `print` logging (server.py:33, 48, 60) is not modelled.
- `huella` is modelled as `Option<string>`. Python truthiness of values that are not strings and the error on unhashable values are not modelled.
- Concurrent requests and the server entry point (server.py:63-64) are not modelled.
- Verification.Spreadsheet.Verify: the roster read is an input, so the model shows that a missing hash ignores the read's result, not that no read is issued.
- The handler is registered for POST only (server.py:36). Variants of the service that answer GET and read the hash from a USB reader are not part of this model.
