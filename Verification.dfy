/** The `/verificar` request flow: a captured fingerprint hash is checked
    against the roster and, on a match, one attendance row is appended to
    the sheet range `RegistroHuella!C:F`. */
module Verification {
  import opened Wrappers
  import opened Roster

  /** The fixed activity label written in column F of every attendance row. */
  const Label: string := "Almuerzo"

  const MsgInvalid: string := "No se recibió una huella válida"
  const MsgValidated: string := "Huella validada"
  const MsgNotFound: string := "Huella no encontrada"

  /** The three ways a verification request can end. */
  datatype Outcome = BadRequest | Recognized(dni: string) | NotFound

  /** The JSON payload and HTTP status code the endpoint answers with. */
  datatype Response = Response(code: int, status: string, dni: Option<string>, message: string)

  /** The captured hash is missing: absent from the body, or the empty string. */
  predicate Missing(huella: Option<string>)
  {
    huella.None? || huella.value == ""
  }

  /** The decision of the handler, from the captured hash and the roster. */
  function Decide(huella: Option<string>, roster: RosterMap): (d: Outcome)
    ensures d.BadRequest? <==> Missing(huella)
    ensures d.Recognized? <==> !Missing(huella) && huella.value in roster
    ensures d.Recognized? ==> d.dni == roster[huella.value]
  {
    if Missing(huella) then BadRequest
    else if huella.value in roster then Recognized(roster[huella.value])
    else NotFound
  }

  /** The response each outcome produces. */
  function Respond(d: Outcome): (r: Response)
    ensures r.code == 200 <==> d.Recognized?
    ensures r.code == 400 <==> d.BadRequest?
    ensures r.code == 404 <==> d.NotFound?
    ensures r.status == "success" <==> d.Recognized?
    ensures r.dni.Some? <==> d.Recognized?
    ensures d.Recognized? ==> r.dni.value == d.dni
    ensures r.message == MsgValidated <==> d.Recognized?
    ensures d.BadRequest? ==> r.message == MsgInvalid
    ensures d.NotFound? ==> r.message == MsgNotFound
    ensures !d.Recognized? ==> r.status == "error"
  {
    match d
    case BadRequest => Response(400, "error", None, MsgInvalid)
    case Recognized(dni) => Response(200, "success", Some(dni), MsgValidated)
    case NotFound => Response(404, "error", None, MsgNotFound)
  }

  /** The row appended for a recognised DNI: columns C to F. */
  function AttendanceRow(dni: string, date: string, time: string): (row: Row)
    ensures |row| == 4 && row[0] == dni && row[1] == date && row[2] == time && row[3] == Label
  {
    [dni, date, time, Label]
  }

  /** The remote spreadsheet's attendance range, which the handler only
      ever extends at the end. */
  class Spreadsheet {
    var attendance: seq<Row>

    constructor (initial: seq<Row>)
      ensures attendance == initial
    {
      attendance := initial;
    }

    /** One `/verificar` request. `fetched` is the outcome of reading the
        roster range (`None` when the read raised), and `date` and `time` are
        the wall-clock strings of the moment the request is handled. */
    method Verify(huella: Option<string>, fetched: Option<seq<Row>>, date: string, time: string)
      returns (resp: Response)
      modifies this
      ensures resp == Respond(Decide(huella, FetchRoster(fetched)))
      ensures Missing(huella) ==> resp.code == 400 && resp.message == MsgInvalid
      ensures resp.code == 200 ==>
                resp.dni.Some? && attendance == old(attendance) + [AttendanceRow(resp.dni.value, date, time)]
      ensures resp.code != 200 ==> attendance == old(attendance)
    {
      if Missing(huella) {
        resp := Response(400, "error", None, MsgInvalid);
        return;
      }
      var registered := FetchRoster(fetched);
      if huella.value in registered {
        var dni := registered[huella.value];
        attendance := attendance + [[dni, date, time, Label]];
        resp := Response(200, "success", Some(dni), MsgValidated);
      } else {
        resp := Response(404, "error", None, MsgNotFound);
      }
    }
  }

  /** A non-empty hash is recognised exactly when some fetched row registers
      it, and the DNI is the first cell of the last such row. */
  lemma RecognizedIffRegistered(huella: string, rows: seq<Row>)
    requires huella != ""
    ensures Decide(Some(huella), FetchRoster(Some(rows))).Recognized?
            <==> exists i :: 0 <= i < |rows| && Registers(rows[i], huella)
    ensures forall i :: 0 <= i < |rows| && Registers(rows[i], huella)
                        && (forall j :: i < j < |rows| ==> !Registers(rows[j], huella))
                     ==> Decide(Some(huella), FetchRoster(Some(rows))) == Recognized(rows[i][0])
  {
    RosterKeys(rows, huella);
    forall i | 0 <= i < |rows| && Registers(rows[i], huella)
                && (forall j :: i < j < |rows| ==> !Registers(rows[j], huella))
      ensures Decide(Some(huella), FetchRoster(Some(rows))) == Recognized(rows[i][0])
    {
      RosterLastWins(rows, i);
    }
  }

  /** A failed roster fetch degrades to "not found" for every captured hash
      that is not missing. */
  lemma FetchFailureNeverRecognizes(huella: Option<string>)
    requires !Missing(huella)
    ensures Respond(Decide(huella, FetchRoster(None))).code == 404
  {
  }

  /** A missing hash is rejected whatever the roster holds, even when the
      roster registers the empty hash. */
  lemma MissingIndependentOfRoster(huella: Option<string>, roster: RosterMap, other: RosterMap)
    requires Missing(huella)
    ensures Decide(huella, roster) == Decide(huella, other) == BadRequest
  {
  }

  /** The worked scenario: a roster registering "abc123" for DNI "12345678". */
  lemma Scenario()
    ensures var rows := [["12345678", "abc123"]];
            && Decide(Some("abc123"), FetchRoster(Some(rows))) == Recognized("12345678")
            && Decide(Some("zzz"), FetchRoster(Some(rows))) == NotFound
            && Decide(Some(""), FetchRoster(Some(rows))) == BadRequest
  {
    var rows := [["12345678", "abc123"]];
    assert Registers(rows[0], "abc123");
    RosterKeys(rows, "zzz");
  }
}
