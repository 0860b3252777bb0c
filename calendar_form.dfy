/** The session form of components/calendar/CalendarForm.tsx as a state
    machine: the component's state (`status`, the draft `form`, `error`) and
    `mode` are fields of an object, and each event handler is a method. The
    network calls are not executed: each dispatched call is recorded in
    `requests`, a submit or delete call stays in `outstanding` until `Settle`
    delivers its outcome, and `router.refresh()` increments `refreshes`. */
module CalendarForm {
  import opened Wrappers
  import opened EcmaDate
  import opened IsoDate

  datatype Status = Idle | Pending | Resolved | Rejected

  datatype Mode = CreateSession | UpdateSession | DeleteSession

  /** The error a failed API call throws; the form stores it unchanged. */
  datatype ApiError = ApiError(message: string)

  /** How an outstanding API call ends. */
  datatype Outcome = Succeeded | Failed(error: ApiError)

  /** The draft session; None stands for an `undefined` optional field. */
  datatype Draft = Draft(
    date: string,
    description: Option<string>,
    name: string,
    ownerId: string,
    sessionId: string,
    videoUrl: Option<string>)

  /** The component's `state` object. */
  datatype FormState = FormState(error: Option<ApiError>, form: Draft, status: Status)

  /** What fetchSession returns and the form reads: the stored date (its UTC
      calendar fields) and the text fields, `null` being None. */
  datatype FetchedSession = FetchedSession(
    date: Ymd,
    description: Option<string>,
    name: string,
    videoUrl: Option<string>)

  /** An API call the form makes. */
  datatype Request =
    | FetchRequest(id: string)
    | CreateRequest(draft: Draft)
    | UpdateRequest(draft: Draft)
    | DeleteRequest(draft: Draft, deleteMarker: string)

  /** The four inputs of the form. */
  datatype Field = DateField | NameField | DescriptionField | VideoUrlField

  /** initialState, which the component rebuilds from the `userId` prop: no
      error, nothing pending, and a blank draft owned by the user and bound to
      no session, so no Delete button is shown for it. */
  function InitialState(userId: string): (init: FormState)
    ensures init.status == Idle && init.error.None?
    ensures init.form.ownerId == userId && init.form.sessionId == ""
  {
    FormState(None, Draft("", Some(""), "", userId, "", Some("")), Idle)
  }

  class SessionForm {
    /** The `sessionId` prop; "" stands for `undefined` (only its truthiness matters). */
    var sessionId: string
    /** The `userId` prop, '' by default. */
    var userId: string
    var status: Status
    var form: Draft
    var error: Option<ApiError>
    var mode: Mode
    /** How many times `router.refresh()` has been called. */
    var refreshes: nat
    /** Every API call made, in order. */
    var requests: seq<Request>
    /** Submit and delete calls made and not yet settled. */
    var outstanding: seq<Request>

    /** The draft belongs to the current user; an idle or resolved form shows
        no error and a rejected one always does. */
    ghost predicate Valid()
      reads this
    {
      form.ownerId == userId
      && (status == Idle || status == Resolved ==> error.None?)
      && (status == Rejected ==> error.Some?)
    }

    function State(): FormState
      reads this
    {
      FormState(error, form, status)
    }

    /** The first render: `initialState` and mode `createSession`. */
    constructor (sessionId: string, userId: string)
      ensures Valid()
      ensures State() == InitialState(userId) && mode == CreateSession
      ensures this.sessionId == sessionId && this.userId == userId
      ensures refreshes == 0 && requests == [] && outstanding == []
    {
      this.sessionId := sessionId;
      this.userId := userId;
      var init := InitialState(userId);
      status := init.status;
      form := init.form;
      error := init.error;
      mode := CreateSession;
      refreshes := 0;
      requests := [];
      outstanding := [];
    }

    /** The effect that loads an existing session (on mount and whenever the
        `sessionId` prop changes): with a session id it fetches the session
        and copies its fields into the draft, the date as the first ten
        characters of its ISO string. A failed fetch is not caught and leaves
        the state as it was. */
    method Load(fetched: Result<FetchedSession, ApiError>)
      requires Valid()
      modifies this
      ensures Valid()
      ensures sessionId == old(sessionId) && userId == old(userId)
      ensures status == old(status) && error == old(error) && mode == old(mode)
      ensures refreshes == old(refreshes) && outstanding == old(outstanding)
      ensures sessionId == "" ==> requests == old(requests) && form == old(form)
      ensures sessionId != "" ==> requests == old(requests) + [FetchRequest(sessionId)]
      ensures sessionId != "" && fetched.Success? ==>
        form == old(form).(date := IsoDatePrefix(fetched.value.date),
                           description := fetched.value.description,
                           name := fetched.value.name,
                           sessionId := sessionId,
                           videoUrl := fetched.value.videoUrl)
      ensures fetched.Failure? ==> form == old(form)
      ensures sessionId != "" && fetched.Success? ==> ShowsDelete()
    {
      if sessionId != "" {
        requests := requests + [FetchRequest(sessionId)];
        if fetched.Success? {
          var session := fetched.value;
          form := form.(date := IsoDatePrefix(session.date),
                        description := session.description,
                        name := session.name,
                        sessionId := sessionId,
                        videoUrl := session.videoUrl);
        }
      }
    }

    /** A new `sessionId` prop re-runs the load effect; the same value does not. */
    method ChangeSessionId(id: string, fetched: Result<FetchedSession, ApiError>)
      requires Valid()
      modifies this
      ensures Valid()
      ensures sessionId == id && userId == old(userId)
      ensures status == old(status) && error == old(error) && mode == old(mode)
      ensures refreshes == old(refreshes) && outstanding == old(outstanding)
      ensures id == old(sessionId) || id == "" ==> requests == old(requests) && form == old(form)
      ensures id != old(sessionId) && id != "" ==> requests == old(requests) + [FetchRequest(id)]
      ensures id != old(sessionId) && id != "" && fetched.Success? ==>
        form == old(form).(date := IsoDatePrefix(fetched.value.date),
                           description := fetched.value.description,
                           name := fetched.value.name,
                           sessionId := id,
                           videoUrl := fetched.value.videoUrl)
      ensures fetched.Failure? ==> form == old(form)
      ensures id != old(sessionId) && id != "" && fetched.Success? ==> ShowsDelete()
      ensures CanSubmit() == old(CanSubmit())
    {
      if id != sessionId {
        sessionId := id;
        Load(fetched);
      }
    }

    /** The effect on a change of the `userId` prop: only the draft's owner changes. */
    method ChangeUserId(id: string)
      requires Valid()
      modifies this
      ensures Valid()
      ensures userId == id && form == old(form).(ownerId := id)
      ensures sessionId == old(sessionId) && status == old(status) && error == old(error)
      ensures mode == old(mode) && refreshes == old(refreshes)
      ensures requests == old(requests) && outstanding == old(outstanding)
    {
      if id != userId {
        userId := id;
        form := form.(ownerId := id);
      }
    }

    /** An input's onChange: one draft field takes the typed value. */
    method EditField(field: Field, value: string)
      requires Valid()
      modifies this`form
      ensures Valid()
      ensures field == DateField ==> form == old(form).(date := value)
      ensures field == NameField ==> form == old(form).(name := value)
      ensures field == DescriptionField ==> form == old(form).(description := Some(value))
      ensures field == VideoUrlField ==> form == old(form).(videoUrl := Some(value))
      ensures status == old(status) && error == old(error)
    {
      match field
      case DateField => form := form.(date := value);
      case NameField => form := form.(name := value);
      case DescriptionField => form := form.(description := Some(value));
      case VideoUrlField => form := form.(videoUrl := Some(value));
    }

    /** handleSubmit up to its network call: status `pending`, then an update
        when the draft carries a session id and a create otherwise. The form is
        submitted only through its submit button, which is disabled without a
        user id. */
    method BeginSubmit()
      requires Valid() && CanSubmit()
      modifies this
      ensures Valid()
      ensures status == Pending && form == old(form) && error == old(error)
      ensures mode == if old(form).sessionId != "" then UpdateSession else CreateSession
      ensures var call := if old(form).sessionId != "" then UpdateRequest(old(form)) else CreateRequest(old(form));
        requests == old(requests) + [call] && outstanding == old(outstanding) + [call]
      ensures sessionId == old(sessionId) && userId == old(userId) && refreshes == old(refreshes)
    {
      status := Pending;
      var call;
      if form.sessionId != "" {
        mode := UpdateSession;
        call := UpdateRequest(form);
      } else {
        mode := CreateSession;
        call := CreateRequest(form);
      }
      requests := requests + [call];
      outstanding := outstanding + [call];
    }

    /** handleDelete up to its network call: mode `deleteSession` and status
        `pending`; without a `sessionId` prop it returns there, and nothing
        ever moves the status on. The call sends the draft with a delete marker.
        Only the Delete button calls it, and that button is rendered only while
        the draft carries a session id. */
    method BeginDelete()
      requires Valid() && ShowsDelete()
      modifies this
      ensures Valid()
      ensures mode == DeleteSession && status == Pending
      ensures form == old(form) && error == old(error)
      ensures sessionId == "" ==> requests == old(requests) && outstanding == old(outstanding)
      ensures sessionId != "" ==>
        requests == old(requests) + [DeleteRequest(old(form), "true")]
        && outstanding == old(outstanding) + [DeleteRequest(old(form), "true")]
      ensures sessionId == old(sessionId) && userId == old(userId) && refreshes == old(refreshes)
    {
      mode := DeleteSession;
      status := Pending;
      if sessionId != "" {
        var call := DeleteRequest(form, "true");
        requests := requests + [call];
        outstanding := outstanding + [call];
      }
    }

    /** The end of handleSubmit or handleDelete once its call settles: the
        state returns to `initialState` with status `resolved` and a page
        refresh, or with status `rejected` and the caught error; the draft is
        discarded either way. */
    method Settle(i: nat, outcome: Outcome)
      requires Valid() && i < |outstanding|
      modifies this
      ensures Valid()
      ensures outstanding == old(outstanding[..i] + outstanding[i + 1..])
      ensures outcome.Succeeded? ==>
        State() == InitialState(userId).(status := Resolved) && refreshes == old(refreshes) + 1
      ensures outcome.Failed? ==>
        State() == InitialState(userId).(status := Rejected, error := Some(outcome.error))
        && refreshes == old(refreshes)
      ensures sessionId == old(sessionId) && userId == old(userId)
      ensures mode == old(mode) && requests == old(requests)
      ensures !ShowsDelete() && CanSubmit() == old(CanSubmit())
    {
      outstanding := outstanding[..i] + outstanding[i + 1..];
      var init := InitialState(userId);
      form := init.form;
      match outcome
      case Succeeded =>
        status := Resolved;
        error := init.error;
        refreshes := refreshes + 1;
      case Failed(e) =>
        status := Rejected;
        error := Some(e);
    }

    /** resetForm: back to `initialState` from any state. */
    method Reset()
      requires Valid()
      modifies this
      ensures Valid()
      ensures State() == InitialState(userId)
      ensures sessionId == old(sessionId) && userId == old(userId) && mode == old(mode)
      ensures refreshes == old(refreshes) && requests == old(requests) && outstanding == old(outstanding)
      ensures !ShowsDelete() && CanSubmit() == old(CanSubmit())
    {
      var init := InitialState(userId);
      status, form, error := init.status, init.form, init.error;
    }

    /** The submit button is enabled only with a user id. */
    function CanSubmit(): bool
      reads this
    {
      userId != ""
    }

    /** The delete button is rendered only when the draft carries a session id. */
    function ShowsDelete(): bool
      reads this
    {
      form.sessionId != ""
    }
  }

  /** After a session has been loaded and the `sessionId` prop is then cleared,
      the draft still carries the id, so Delete is offered; clicking it sets
      status `pending` and sends nothing, and no call is left to settle it. */
  method DeleteAfterSessionIdClearedStaysPending(fetched: FetchedSession)
    returns (offered: bool, status: Status, requests: seq<Request>, outstanding: seq<Request>)
    ensures offered
    ensures status == Pending && requests == [FetchRequest("s1")] && outstanding == []
  {
    var f := new SessionForm("s1", "u1");
    f.Load(Success(fetched));
    f.ChangeSessionId("", Success(fetched));
    offered := f.ShowsDelete();
    f.BeginDelete();
    status, requests, outstanding := f.status, f.requests, f.outstanding;
  }

  /** Creating a session: with a user id and no session id the form sends a
      create with the draft, and on success shows `resolved`, refreshes once
      and returns to an empty draft owned by the same user. */
  method CreateSessionScenario(name: string, date: string)
    returns (canSubmit: bool, sent: seq<Request>, state: FormState, refreshes: nat)
    ensures canSubmit
    ensures sent == [CreateRequest(Draft(date, Some(""), name, "u1", "", Some("")))]
    ensures state == FormState(None, Draft("", Some(""), "", "u1", "", Some("")), Resolved)
    ensures refreshes == 1
  {
    var f := new SessionForm("", "u1");
    f.Load(Failure(ApiError("not called")));
    f.EditField(NameField, name);
    f.EditField(DateField, date);
    canSubmit := f.CanSubmit();
    f.BeginSubmit();
    f.Settle(0, Succeeded);
    sent, state, refreshes := f.requests, f.State(), f.refreshes;
  }

  /** A failed update: the form shows `rejected` with the error it caught and
      the edited draft is gone. */
  method FailedUpdateScenario(fetched: FetchedSession, e: ApiError)
    returns (sent: seq<Request>, state: FormState, refreshes: nat)
    ensures |sent| == 2 && sent[0] == FetchRequest("s1") && sent[1].UpdateRequest?
    ensures sent[1].draft.sessionId == "s1"
    ensures state == FormState(Some(e), Draft("", Some(""), "", "u1", "", Some("")), Rejected)
    ensures refreshes == 0
  {
    var f := new SessionForm("s1", "u1");
    f.Load(Success(fetched));
    f.EditField(NameField, "edited");
    f.BeginSubmit();
    f.Settle(0, Failed(e));
    sent, state, refreshes := f.requests, f.State(), f.refreshes;
  }
}
