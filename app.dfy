/** The `App` component's state and its event handlers: fetching and
    clearing the list, opening and closing the edit modal, typing into the
    form, and saving an edit. Each handler runs as one atomic step; the HTTP
    collaborator's answer is a parameter of the step that awaits it, and the
    two-second `setTimeout` is a separate step. */
module UserEditApp {

  import opened Options
  import opened NumberText
  import opened Users
  import opened Validation

  /** What a `fetch` call comes back with: a response with its status and, as
      far as the caller reads it, its JSON body (`None` when
      `response.json()` throws), or a transport error. */
  datatype HttpOutcome =
    | Received(status: int, json: Option<seq<User>>)
    | NetworkError

  /** `response.ok`: a status in 200..299. */
  predicate IsOk(response: HttpOutcome) {
    response.Received? && 200 <= response.status <= 299
  }

  /** A fetch that reaches `setData`: an ok response whose body decodes. */
  predicate FetchDelivers(response: HttpOutcome) {
    IsOk(response) && response.json.Some?
  }

  /** The update `saveEdit` sends: `PUT /users/{id}` with the buffer's name,
      email and age as its body. */
  datatype UpdateRequest = UpdateRequest(id: int, name: string, email: string, age: int)

  /** How a save ends: a validation alert, a failed request (logged only), or
      the merged list and a closed modal. */
  datatype SaveResult = Rejected(rule: Rule) | RequestFailed | Saved

  class App {
    var data: seq<User>
    var isFetching: bool
    var showUnfetchButton: bool
    var isModalVisible: bool
    var editingUser: Option<User>
    var editedName: string
    var editedEmail: string
    var editedAge: int
    /** The `setTimeout` callbacks scheduled by the fetch button that have not
        run yet. */
    var pendingFetches: nat

    /** The modal is visible exactly while a user is being edited. */
    ghost predicate Valid()
      reads this
    {
      isModalVisible == editingUser.Some?
    }

    /** The modal is closed and the edit buffer holds its initial values. */
    ghost predicate EditClosed()
      reads this
    {
      !isModalVisible && editingUser == None && editedName == "" && editedEmail == "" && editedAge == 0
    }

    /** The initial values of the `useState` hooks. */
    constructor ()
      ensures Valid() && EditClosed()
      ensures data == [] && !isFetching && !showUnfetchButton && pendingFetches == 0
    {
      data := [];
      isFetching := false;
      showUnfetchButton := false;
      isModalVisible := false;
      editingUser := None;
      editedName := "";
      editedEmail := "";
      editedAge := 0;
      pendingFetches := 0;
    }

    /** `fetchUserData`, run to completion with the collaborator's answer: the
        list is replaced verbatim when the fetch delivers and kept as it was
        otherwise; the unfetch button shows exactly after a delivered fetch;
        the `finally` clause always clears the busy flag. */
    method FetchUserData(response: HttpOutcome)
      requires Valid()
      modifies this
      ensures Valid()
      ensures !isFetching
      ensures FetchDelivers(response) ==> data == response.json.value && showUnfetchButton
      ensures !FetchDelivers(response) ==> data == old(data) && !showUnfetchButton
      ensures isModalVisible == old(isModalVisible) && editingUser == old(editingUser)
      ensures editedName == old(editedName) && editedEmail == old(editedEmail) && editedAge == old(editedAge)
      ensures pendingFetches == old(pendingFetches)
    {
      isFetching := true;
      showUnfetchButton := false;
      if FetchDelivers(response) {
        data := response.json.value;
        showUnfetchButton := true;
      }
      isFetching := false;
    }

    /** `fetchUserDataWithDelay`: while a fetch is under way it does nothing;
        otherwise it raises the busy flag and schedules one fetch. */
    method FetchUserDataWithDelay() returns (scheduled: bool)
      requires Valid()
      modifies this
      ensures Valid()
      ensures scheduled == !old(isFetching)
      ensures isFetching
      ensures pendingFetches == old(pendingFetches) + (if scheduled then 1 else 0)
      ensures data == old(data) && showUnfetchButton == old(showUnfetchButton)
      ensures isModalVisible == old(isModalVisible) && editingUser == old(editingUser)
      ensures editedName == old(editedName) && editedEmail == old(editedEmail) && editedAge == old(editedAge)
    {
      scheduled := !isFetching;
      if scheduled {
        isFetching := true;
        pendingFetches := pendingFetches + 1;
      }
    }

    /** The two-second timer fires: one scheduled callback runs
        `fetchUserData` with the collaborator's answer. */
    method RunScheduledFetch(response: HttpOutcome)
      requires Valid() && pendingFetches > 0
      modifies this
      ensures Valid()
      ensures pendingFetches == old(pendingFetches) - 1
      ensures !isFetching
      ensures FetchDelivers(response) ==> data == response.json.value && showUnfetchButton
      ensures !FetchDelivers(response) ==> data == old(data) && !showUnfetchButton
      ensures isModalVisible == old(isModalVisible) && editingUser == old(editingUser)
      ensures editedName == old(editedName) && editedEmail == old(editedEmail) && editedAge == old(editedAge)
    {
      pendingFetches := pendingFetches - 1;
      FetchUserData(response);
    }

    /** `unfetchUserData`: the list is emptied and both flags are cleared,
        whatever the state was; a scheduled fetch is not cancelled. */
    method UnfetchUserData()
      requires Valid()
      modifies this
      ensures Valid()
      ensures data == [] && !isFetching && !showUnfetchButton
      ensures isModalVisible == old(isModalVisible) && editingUser == old(editingUser)
      ensures editedName == old(editedName) && editedEmail == old(editedEmail) && editedAge == old(editedAge)
      ensures pendingFetches == old(pendingFetches)
    {
      isFetching := false;
      data := [];
      showUnfetchButton := false;
    }

    /** `showEditModal(user)`: the buffer is seeded from the record and the
        modal opens. */
    method ShowEditModal(user: User)
      requires Valid()
      modifies this
      ensures Valid()
      ensures editingUser == Some(user) && isModalVisible
      ensures editedName == user.name && editedEmail == user.email && editedAge == user.age
      ensures data == old(data) && isFetching == old(isFetching)
      ensures showUnfetchButton == old(showUnfetchButton) && pendingFetches == old(pendingFetches)
    {
      editingUser := Some(user);
      editedName := user.name;
      editedEmail := user.email;
      editedAge := user.age;
      isModalVisible := true;
    }

    /** `closeEditModal`, the modal's Cancel button: the modal closes and the
        buffer is reset; nothing else changes. */
    method CloseEditModal()
      requires Valid()
      modifies this
      ensures Valid() && EditClosed()
      ensures data == old(data) && isFetching == old(isFetching)
      ensures showUnfetchButton == old(showUnfetchButton) && pendingFetches == old(pendingFetches)
    {
      isModalVisible := false;
      editingUser := None;
      editedName := "";
      editedEmail := "";
      editedAge := 0;
    }

    /** The name field's `onChangeText`. */
    method EditName(text: string)
      requires Valid()
      modifies this`editedName
      ensures Valid() && editedName == text
    {
      editedName := text;
    }

    /** The email field's `onChangeText`. */
    method EditEmail(text: string)
      requires Valid()
      modifies this`editedEmail
      ensures Valid() && editedEmail == text
    {
      editedEmail := text;
    }

    /** The age field's `onChangeText`: `setAge(parseInt(text, 10) || 0)`. */
    method EditAgeText(text: string)
      requires Valid()
      modifies this`editedAge
      ensures Valid() && editedAge == AgeFromText(text)
    {
      editedAge := AgeFromText(text);
    }

    /** `saveEdit`, run to completion with the collaborator's answer to the
        update. A validation failure or a failed request changes neither the
        list nor the modal nor the buffer; success merges the buffer into
        every record with the edited id and closes the modal. The `finally`
        clause clears the busy flag on every path, early returns included. */
    method SaveEdit(response: HttpOutcome) returns (result: SaveResult, request: Option<UpdateRequest>)
      requires Valid()
      modifies this
      ensures Valid()
      ensures var v := old(Validate(editingUser, editedName, editedAge, editedEmail));
              && (v.Err? ==> result == Rejected(v.rule) && request == None)
              && (v == Ok ==> result == (if IsOk(response) then Saved else RequestFailed))
              && (v == Ok ==> request == Some(UpdateRequest(old(editingUser).value.id, old(editedName),
                                                            old(editedEmail), old(editedAge))))
      ensures result == Saved ==>
                && old(editingUser).Some?
                && data == ApplyEdit(old(data), old(editingUser).value.id, old(editedName),
                                     old(editedEmail), old(editedAge))
                && EditClosed()
      ensures result != Saved ==>
                && data == old(data) && isModalVisible == old(isModalVisible) && editingUser == old(editingUser)
                && editedName == old(editedName) && editedEmail == old(editedEmail) && editedAge == old(editedAge)
      ensures !isFetching
      ensures showUnfetchButton == old(showUnfetchButton) && pendingFetches == old(pendingFetches)
    {
      var verdict := Validate(editingUser, editedName, editedAge, editedEmail);
      if verdict.Err? {
        result, request := Rejected(verdict.rule), None;
        isFetching := false;
        return;
      }
      isFetching := true;
      var id := editingUser.value.id;
      request := Some(UpdateRequest(id, editedName, editedEmail, editedAge));
      if !IsOk(response) {
        result := RequestFailed;
        isFetching := false;
        return;
      }
      data := ApplyEdit(data, id, editedName, editedEmail, editedAge);
      assert data == ApplyEdit(old(data), old(editingUser).value.id, old(editedName),
                               old(editedEmail), old(editedAge));
      CloseEditModal();
      result := Saved;
      isFetching := false;
    }
  }

  /** Opening the modal on a record and cancelling leaves the list as it was
      and the buffer cleared. */
  method OpenThenCancel(app: App, user: User)
    requires app.Valid()
    modifies app
    ensures app.Valid() && app.EditClosed()
    ensures app.data == old(app.data) && app.isFetching == old(app.isFetching)
    ensures app.showUnfetchButton == old(app.showUnfetchButton) && app.pendingFetches == old(app.pendingFetches)
  {
    app.ShowEditModal(user);
    app.CloseEditModal();
  }

  /** Pressing the fetch button twice before the timer fires schedules one
      fetch, so the collaborator is called once. */
  method FetchPressedTwice(app: App) returns (first: bool, second: bool)
    requires app.Valid() && !app.isFetching
    modifies app
    ensures app.Valid()
    ensures first && !second
    ensures app.pendingFetches == old(app.pendingFetches) + 1 && app.isFetching
    ensures app.data == old(app.data)
  {
    first := app.FetchUserDataWithDelay();
    second := app.FetchUserDataWithDelay();
  }

  /** A fetch answered with one record leaves exactly that record listed, the
      unfetch button shown and the busy flag cleared; unfetching then empties
      the list. */
  method FetchThenUnfetch() returns (fetched: seq<User>, shown: bool, busy: bool, cleared: seq<User>)
    ensures fetched == [User(1, "Ann Lee", "ann@x.com", 30)] && shown && !busy
    ensures cleared == []
  {
    var app := new App();
    var scheduled := app.FetchUserDataWithDelay();
    app.RunScheduledFetch(Received(200, Some([User(1, "Ann Lee", "ann@x.com", 30)])));
    fetched, shown, busy := app.data, app.showUnfetchButton, app.isFetching;
    app.UnfetchUserData();
    cleared := app.data;
  }

  /** Typing "7" or "45" into the age field sets that age. */
  lemma TypedAges()
    ensures AgeFromText("7") == 7 && AgeFromText("45") == 45
  {
    assert ToDecimalString(7) == "7";
    AgeTextRoundTrip(7);
    assert NatToDecimal(45) == NatToDecimal(4) + [DigitChar(5)];
    assert ToDecimalString(45) == "45";
    AgeTextRoundTrip(45);
  }

  /** A fetch answering with `list`, then `u` opened for editing and the three
      texts typed into the form. */
  method OpenAndType(list: seq<User>, u: User, name: string, email: string, ageText: string)
    returns (app: App)
    ensures fresh(app) && app.Valid() && !app.isFetching
    ensures app.data == list && app.editingUser == Some(u) && app.isModalVisible
    ensures app.editedName == name && app.editedEmail == email
    ensures app.editedAge == AgeFromText(ageText)
  {
    app := new App();
    app.FetchUserData(Received(200, Some(list)));
    assert app.data == list;
    app.ShowEditModal(u);
    app.EditName(name);
    assert app.editingUser == Some(u) && app.isModalVisible && app.data == list;
    app.EditEmail(email);
    assert app.editingUser == Some(u) && app.isModalVisible && app.data == list;
    app.EditAgeText(ageText);
  }

  /** Submitting age 7 fails the age format check: no request is sent, the
      modal stays open and the buffer keeps what was typed. */
  method SubmitAgeSeven() returns (result: SaveResult, request: Option<UpdateRequest>,
                                   open: bool, name: string, age: int, email: string)
    ensures result == Rejected(AgeFormat) && request == None
    ensures open && name == "O K" && age == 7 && email == "a@b.com"
  {
    var ann := User(1, "Ann Lee", "ann@x.com", 30);
    var app := OpenAndType([ann], ann, "O K", "a@b.com", "7");
    TypedAges();
    AgeSevenRejected(ann);
    result, request := app.SaveEdit(Received(200, None));
    open, name, age, email := app.isModalVisible, app.editedName, app.editedAge, app.editedEmail;
  }

  /** The merge of a two-record list on the first record's id, the ids being
      distinct. */
  lemma MergeFirstOfTwo(a: User, b: User, name: string, email: string, age: int)
    requires a.id != b.id
    ensures ApplyEdit([a, b], a.id, name, email, age) == [a.(name := name, email := email, age := age), b]
  {
    var r := ApplyEdit([a, b], a.id, name, email, age);
    assert r[0] == a.(name := name, email := email, age := age);
  }

  /** Saving "Jon Ng", 45, "jon@ng.com" for id 1 updates that record only,
      keeps the order and closes the modal. */
  method SaveForFirstRecord() returns (result: SaveResult, list: seq<User>, open: bool)
    ensures result == Saved && !open
    ensures list == [User(1, "Jon Ng", "jon@ng.com", 45), User(2, "Bo Li", "bo@li.org", 52)]
  {
    var ann, bo := User(1, "Ann Lee", "ann@x.com", 30), User(2, "Bo Li", "bo@li.org", 52);
    var app := OpenAndType([ann, bo], ann, "Jon Ng", "jon@ng.com", "45");
    TypedAges();
    assert app.editedAge == 45;
    WellFormedEditAccepted(ann);
    assert Validate(app.editingUser, app.editedName, app.editedAge, app.editedEmail) == Ok;
    var request;
    result, request := app.SaveEdit(Received(204, None));
    assert app.data == ApplyEdit([ann, bo], 1, "Jon Ng", "jon@ng.com", 45);
    MergeFirstOfTwo(ann, bo, "Jon Ng", "jon@ng.com", 45);
    list, open := app.data, app.isModalVisible;
  }
}
