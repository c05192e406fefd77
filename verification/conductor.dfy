/**
 * The conductor's validation screen (app/conductor/page.tsx): reading a
 * ticket id out of a scanned QR text, the stop search box, and the two halves
 * of the validation request. The scanner, the 300 ms debounce timer and the
 * two `fetch` calls are outside the model: the text the scanner decodes, the
 * suggestion list a search returns and the reply of the validation endpoint
 * are inputs of the methods that consume them.
 */
module Conductor {
  import opened Options
  import opened JsText
  import opened TransitGraph

  const TicketIdPrefix := "TICKET_ID:"
  const TicketMarker := "_TICKET:"

  const MissingInput := "Missing Ticket ID or Stop"
  const Verifying := "Verifying with Blockchain..."
  const ValidTicket := "VALID TICKET \U{2705}"
  const InvalidPrefix := "INVALID: "
  const NetworkError := "Network Connection Error"

  /* ---------------------------------------------------------------------- */
  /* Ticket id extraction                                                    */
  /* ---------------------------------------------------------------------- */

  /** In a text that starts with `TICKET_ID:`, the first colon ends that prefix. */
  lemma PrefixColon(text: string)
    requires StartsWith(text, TicketIdPrefix)
    ensures FirstAt(text, ":", 9)
  {
    assert text[9..10] == ":" by {
      assert text[..10] == TicketIdPrefix;
    }
    forall j | 0 <= j < 9
      ensures !OccursAt(text, ":", j)
    {
      assert text[j..j + 1] == [text[j]] && text[j] == TicketIdPrefix[j];
    }
  }

  /**
   * `handleScanSuccess`: the id the scanned text carries. A `TICKET_ID:` text
   * gives what lies between its first and second colon (or the end); else a
   * text holding `_TICKET:` gives what lies between its first and second
   * marker (or the end); any other text is taken whole.
   */
  function ExtractTicketId(text: string): (id: string)
    ensures StartsWith(text, TicketIdPrefix) ==> BeforeFirst(text[|TicketIdPrefix|..], ":", id)
    ensures !StartsWith(text, TicketIdPrefix) && Includes(text, TicketMarker) ==>
              BeforeFirst(text[IndexOf(text, TicketMarker) + |TicketMarker|..], TicketMarker, id)
    ensures !StartsWith(text, TicketIdPrefix) && !Includes(text, TicketMarker) ==> id == text
  {
    if StartsWith(text, TicketIdPrefix) then
      PrefixColon(text);
      SplitSecond(text, ":", 9);
      Split(text, ":")[1]
    else if Includes(text, TicketMarker) then
      var parts := Split(text, TicketMarker);
      SplitSecond(text, TicketMarker, IndexOf(text, TicketMarker));
      if |parts| > 1 then parts[1] else text
    else
      text
  }

  /** `BeforeFirst` picks one string: a text without separator is its own first part. */
  lemma WholeBeforeFirst(tail: string, sep: string, r: string)
    requires BeforeFirst(tail, sep, r)
    requires forall j :: !OccursAt(tail, sep, j)
    ensures r == tail
  {
    assert !OccursAt(tail, sep, |r|);
  }

  /** A ticket QR text `TICKET_ID:<id>` gives back `<id>` whenever `<id>` has no colon. */
  lemma {:induction false} TicketQrRoundTrip(id: string)
    requires forall j | 0 <= j < |id| :: id[j] != ':'
    ensures ExtractTicketId(TicketIdPrefix + id) == id
  {
    var text := TicketIdPrefix + id;
    assert text[..|TicketIdPrefix|] == TicketIdPrefix;
    assert text[|TicketIdPrefix|..] == id;
    forall j
      ensures !OccursAt(id, ":", j)
    {
      if 0 <= j < |id| {
        assert id[j..j + 1] == [id[j]];
      }
    }
    WholeBeforeFirst(id, ":", ExtractTicketId(text));
  }

  /* ---------------------------------------------------------------------- */
  /* The page                                                                */
  /* ---------------------------------------------------------------------- */

  /** `{ stop_id, stop_name }` as the stops endpoint lists it. */
  datatype Stop = Stop(stop_id: StopId, stop_name: string)

  datatype Status = Idle | Loading | Success | Error

  /** The body the validation request posts: `{ ticketId, currentStop }`. */
  datatype ScanRequest = ScanRequest(ticketId: string, currentStop: string)

  /**
   * What the validation request ends in: a parsed body (its `passengers` and
   * `message` fields may be missing), or a failed request or body.
   */
  datatype Reply = Body(success: bool, passengers: Option<int>, message: Option<string>) | NetworkFailure

  /** `data.passengers || 1`: a missing or zero count shows as 1. */
  function PassengerCount(passengers: Option<int>): (n: int)
    ensures n != 0
    ensures passengers.Some? && passengers.value != 0 ==> n == passengers.value
    ensures passengers == None || passengers == Some(0) ==> n == 1
  {
    if passengers.Some? && passengers.value != 0 then passengers.value else 1
  }

  /** The text a template literal shows for `data.message`. */
  function MessageText(message: Option<string>): (t: string)
    ensures message.Some? ==> t == message.value
    ensures message.None? ==> t == "undefined"
  {
    if message.Some? then message.value else "undefined"
  }

  class ConductorPage {
    var ticketId: string
    var stopSearch: string
    var selectedStopId: Option<string>
    var suggestions: seq<Stop>
    var status: Status
    var statusMsg: string
    var passengerCount: Option<int>

    /** A stop has been picked from the suggestions and not typed over since. */
    predicate StopChosen()
      reads this
    {
      selectedStopId.Some? && selectedStopId.value != ""
    }

    /** The initial state of the page. */
    constructor()
      ensures ticketId == "" && stopSearch == "" && selectedStopId == None && suggestions == []
      ensures status == Idle && statusMsg == "" && passengerCount == None
    {
      ticketId, stopSearch, selectedStopId, suggestions := "", "", None, [];
      status, statusMsg, passengerCount := Idle, "", None;
    }

    /** `handleScanSuccess`: the ticket field takes the id the scanned text carries. */
    method HandleScanSuccess(decodedText: string)
      modifies this
      ensures ticketId == ExtractTicketId(decodedText)
      ensures stopSearch == old(stopSearch) && selectedStopId == old(selectedStopId) && suggestions == old(suggestions)
      ensures status == old(status) && statusMsg == old(statusMsg) && passengerCount == old(passengerCount)
    {
      ticketId := ExtractTicketId(decodedText);
    }

    /** The ticket field typed into directly. */
    method SetTicketId(value: string)
      modifies this
      ensures ticketId == value
      ensures stopSearch == old(stopSearch) && selectedStopId == old(selectedStopId) && suggestions == old(suggestions)
      ensures status == old(status) && statusMsg == old(statusMsg) && passengerCount == old(passengerCount)
    {
      ticketId := value;
    }

    /**
     * `handleSearchChange` together with the debounced callback it arms:
     * typing drops any chosen stop; a query longer than one UTF-16 code unit
     * is sent to the stops endpoint (the returned `query`), a shorter one
     * clears the suggestions.
     */
    method HandleSearchChange(val: string) returns (query: Option<string>)
      modifies this
      ensures stopSearch == val && selectedStopId == None && !StopChosen()
      ensures query.Some? <==> Utf16Length(val) > 1
      ensures query.Some? ==> query.value == val && suggestions == old(suggestions)
      ensures query.None? ==> suggestions == []
      ensures ticketId == old(ticketId) && status == old(status) && statusMsg == old(statusMsg)
      ensures passengerCount == old(passengerCount)
    {
      stopSearch := val;
      selectedStopId := None;
      if Utf16Length(val) > 1 {
        query := Some(val);
      } else {
        suggestions := [];
        query := None;
      }
    }

    /** `fetchSuggestions` answered: the list becomes the suggestions. */
    method ReceiveSuggestions(data: seq<Stop>)
      modifies this
      ensures suggestions == data
      ensures ticketId == old(ticketId) && stopSearch == old(stopSearch) && selectedStopId == old(selectedStopId)
      ensures status == old(status) && statusMsg == old(statusMsg) && passengerCount == old(passengerCount)
    {
      suggestions := data;
    }

    /**
     * `selectStop`: the search box shows the stop's name, the chosen stop id
     * is its decimal text, and the suggestions close.
     */
    method SelectStop(stop: Stop)
      modifies this
      ensures stopSearch == stop.stop_name && selectedStopId == Some(KeyOf(stop.stop_id)) && suggestions == []
      ensures StopChosen()
      ensures ticketId == old(ticketId) && status == old(status) && statusMsg == old(statusMsg)
      ensures passengerCount == old(passengerCount)
    {
      stopSearch := stop.stop_name;
      selectedStopId := Some(KeyOf(stop.stop_id));
      suggestions := [];
    }

    /**
     * The part of `handleValidation` before the request: without a ticket id
     * or a chosen stop it reports the error and sends nothing; otherwise it
     * shows the loading state, forgets the previous count and posts the
     * ticket id and the stop id.
     */
    method StartValidation() returns (request: Option<ScanRequest>)
      modifies this
      ensures request.Some? <==> old(ticketId) != "" && old(StopChosen())
      ensures request.None? ==>
                && status == Error && statusMsg == MissingInput && passengerCount == old(passengerCount)
      ensures request.Some? ==>
                && request.value == ScanRequest(old(ticketId), old(selectedStopId).value)
                && status == Loading && statusMsg == Verifying && passengerCount == None
      ensures ticketId == old(ticketId) && stopSearch == old(stopSearch) && selectedStopId == old(selectedStopId)
      ensures suggestions == old(suggestions)
    {
      if ticketId == "" || selectedStopId.None? || selectedStopId.value == "" {
        status := Error;
        statusMsg := MissingInput;
        return None;
      }
      status := Loading;
      statusMsg := Verifying;
      passengerCount := None;
      request := Some(ScanRequest(ticketId, selectedStopId.value));
    }

    /**
     * The part of `handleValidation` after the request: a successful body
     * shows the valid state and its passenger count (1 when missing or
     * zero), an unsuccessful one shows its message, and a failed request the
     * network error.
     */
    method FinishValidation(reply: Reply)
      modifies this
      ensures reply.Body? && reply.success ==>
                status == Success && statusMsg == ValidTicket && passengerCount == Some(PassengerCount(reply.passengers))
      ensures reply.Body? && !reply.success ==>
                status == Error && statusMsg == InvalidPrefix + MessageText(reply.message)
                && passengerCount == old(passengerCount)
      ensures reply.NetworkFailure? ==>
                status == Error && statusMsg == NetworkError && passengerCount == old(passengerCount)
      ensures ticketId == old(ticketId) && stopSearch == old(stopSearch) && selectedStopId == old(selectedStopId)
      ensures suggestions == old(suggestions)
    {
      match reply {
        case NetworkFailure =>
          status := Error;
          statusMsg := NetworkError;
        case Body(success, passengers, message) =>
          if success {
            status := Success;
            statusMsg := ValidTicket;
            passengerCount := Some(PassengerCount(passengers));
          } else {
            status := Error;
            statusMsg := InvalidPrefix + MessageText(message);
          }
      }
    }
  }
}
