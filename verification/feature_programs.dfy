/** The admin page that manages features: a list loaded from the API and one
    form that either creates a feature or, in edit mode, updates one. Each
    handler is a pure step from the page state and the answers of the server
    (a parameter) to the next state and the request the page sends. */
module FeaturePrograms {
  import opened JsValues
  import opened JsStrings
  import opened Lists
  import FeatureRoutes

  type FeatureRow = FeatureRoutes.FeatureRow

  const ApiBase := "http://localhost:3001/api/features"

  const MsgHeadingRequired := "Heading is required"
  const MsgSaveFailed := "Save failed"
  const MsgSomethingWrong := "Something went wrong"
  const MsgDeleteFailed := "Delete failed"
  const MsgFailedToDelete := "Failed to delete feature"
  const MsgLoadRejected := "Failed to load features"
  const MsgLoadError := "Error loading features"

  datatype Form = Form(heading: string, description: string)

  const EmptyForm := Form("", "")

  datatype Screen = Screen(
    features: seq<FeatureRow>, loading: bool, loadError: Option<string>,
    form: Form, editingId: Option<nat>, submitError: Option<string>)

  datatype Verb = POST | PUT | DELETE

  datatype Request = Request(verb: Verb, url: string, body: Option<Form>)

  /** How a save or delete request ended: a 2xx answer, another answer with
      the `message` and `error` fields of its JSON body (both absent when the
      body is not JSON), or an error thrown by `fetch` itself. */
  datatype Reply = Ok | NotOk(message: Option<string>, error: Option<string>) | Threw(reason: string)

  /** How loading the list ended. */
  datatype Load = Loaded(items: seq<FeatureRow>) | LoadRejected | LoadThrew(reason: string)

  datatype Submitted = Submitted(screen: Screen, request: Option<Request>)

  datatype Deleted = Deleted(screen: Screen, request: Option<Request>, alert: Option<string>)

  /** The page before its first load has finished. */
  function Initial(): Screen {
    Screen([], true, None, EmptyForm, None, None)
  }

  /** `loadFeatures`: the list on success, an error text otherwise. */
  function ApplyLoad(s: Screen, load: Load): (s': Screen)
    ensures !s'.loading
    ensures load.Loaded? ==> s'.features == load.items && s'.loadError == None
    ensures !load.Loaded? ==> s'.features == s.features && s'.loadError.Some? && s'.loadError.value != ""
    ensures s'.form == s.form && s'.editingId == s.editingId && s'.submitError == s.submitError
  {
    match load
    case Loaded(items) => s.(features := items, loading := false, loadError := None)
    case LoadRejected => s.(loading := false, loadError := Some(MsgLoadRejected))
    case LoadThrew(reason) => s.(loading := false, loadError := Some(OrElse(Some(reason), MsgLoadError)))
  }

  /** `resetForm`. */
  function ResetForm(s: Screen): (s': Screen)
    ensures s'.form == Form("", "") && s'.editingId == None && s'.submitError == None
    ensures s'.features == s.features && s'.loading == s.loading && s'.loadError == s.loadError
  {
    s.(form := EmptyForm, editingId := None, submitError := None)
  }

  /** The request a save sends: a POST to the collection, or a PUT to the item being edited. */
  function SaveRequest(s: Screen): (r: Request)
    ensures r.body == Some(s.form)
    ensures r.verb == POST <==> s.editingId.None?
    ensures s.editingId.None? ==> r.url == ApiBase
    ensures s.editingId.Some? ==> r.verb == PUT && r.url == ApiBase + "/" + NumberToString(s.editingId.value)
  {
    match s.editingId
    case None => Request(POST, ApiBase, Some(s.form))
    case Some(id) => Request(PUT, ApiBase + "/" + NumberToString(id), Some(s.form))
  }

  /** The text shown when the server refuses: its `message`, else its `error`, else `fallback`. */
  function RefusalText(message: Option<string>, error: Option<string>, fallback: string): (r: string)
    requires fallback != ""
    ensures r != ""
    ensures Truthy(message) ==> r == message.value
    ensures !Truthy(message) && Truthy(error) ==> r == error.value
    ensures !Truthy(message) && !Truthy(error) ==> r == fallback
  {
    OrElse(message, OrElse(error, fallback))
  }

  /** `handleSubmit`: refuse a blank heading without a request; otherwise send
      the form, and on success reload the list and reset the form. */
  function Submit(s: Screen, reply: Reply, reload: Load): (out: Submitted)
    ensures Blank(s.form.heading) ==> out == Submitted(s.(submitError := Some(MsgHeadingRequired)), None)
    ensures !Blank(s.form.heading) ==> out.request == Some(SaveRequest(s))
    ensures !Blank(s.form.heading) && reply.Ok? ==>
              out.screen == ResetForm(ApplyLoad(s, reload))
    ensures !Blank(s.form.heading) && reply.NotOk? ==>
              out.screen == s.(submitError := Some(RefusalText(reply.message, reply.error, MsgSaveFailed)))
    ensures !Blank(s.form.heading) && reply.Threw? ==>
              out.screen == s.(submitError := Some(OrElse(Some(reply.reason), MsgSomethingWrong)))
    ensures !(!Blank(s.form.heading) && reply.Ok?) ==>
              out.screen.form == s.form && out.screen.editingId == s.editingId
              && out.screen.features == s.features && out.screen.submitError.Some?
  {
    if Trim(s.form.heading) == "" then Submitted(s.(submitError := Some(MsgHeadingRequired)), None)
    else
      var request := SaveRequest(s);
      match reply
      case Ok => Submitted(ResetForm(ApplyLoad(s, reload)), Some(request))
      case NotOk(message, error) =>
        Submitted(s.(submitError := Some(RefusalText(message, error, MsgSaveFailed))), Some(request))
      case Threw(reason) =>
        Submitted(s.(submitError := Some(OrElse(Some(reason), MsgSomethingWrong))), Some(request))
  }

  /** `handleEdit`: enter edit mode on the item, with its fields in the form. */
  function Edit(s: Screen, item: FeatureRow): (s': Screen)
    ensures s'.editingId == Some(item.id)
    ensures s'.form.heading == item.heading
    ensures s'.form.description == (if Truthy(item.description) then item.description.value else "")
    ensures s'.features == s.features && s'.submitError == s.submitError
    ensures s'.loading == s.loading && s'.loadError == s.loadError
  {
    s.(editingId := Some(item.id), form := Form(OrElse(Some(item.heading), ""), OrElse(item.description, "")))
  }

  /** `handleDelete`: after confirmation, send the DELETE; on success drop the
      items with that id from the local list, otherwise raise an alert. */
  function Delete(s: Screen, id: nat, confirmed: bool, reply: Reply): (out: Deleted)
    ensures !confirmed ==> out == Deleted(s, None, None)
    ensures confirmed ==> out.request == Some(Request(DELETE, ApiBase + "/" + NumberToString(id), None))
    ensures confirmed && reply.Ok? ==>
              out.alert == None && out.screen == s.(features := Filter(s.features, (f: FeatureRow) => f.id != id))
    ensures confirmed && !reply.Ok? ==> out.screen == s && out.alert.Some? && out.alert.value != ""
    ensures confirmed && reply.NotOk? ==> out.alert == Some(RefusalText(reply.message, reply.error, MsgDeleteFailed))
  {
    if !confirmed then Deleted(s, None, None)
    else
      var request := Request(DELETE, ApiBase + "/" + NumberToString(id), None);
      match reply
      case Ok => Deleted(s.(features := Filter(s.features, (f: FeatureRow) => f.id != id)), Some(request), None)
      case NotOk(message, error) => Deleted(s, Some(request), Some(RefusalText(message, error, MsgDeleteFailed)))
      case Threw(reason) => Deleted(s, Some(request), Some(OrElse(Some(reason), MsgFailedToDelete)))
  }

  datatype Field = Heading | Description

  /** `handleChange`: one form field takes the typed value. */
  function Change(s: Screen, field: Field, value: string): (s': Screen)
    ensures s'.form == (if field == Heading then s.form.(heading := value) else s.form.(description := value))
    ensures s'.editingId == s.editingId && s'.features == s.features
    ensures s'.submitError == s.submitError && s'.loading == s.loading && s'.loadError == s.loadError
  {
    match field
    case Heading => s.(form := s.form.(heading := value))
    case Description => s.(form := s.form.(description := value))
  }

  /** A successful delete removes exactly the items with that id and keeps
      the others in their order, piece by piece. */
  lemma DeleteKeepsOthersInOrder(s: Screen, id: nat, front: seq<FeatureRow>, back: seq<FeatureRow>)
    requires s.features == front + back
    ensures Delete(s, id, true, Ok).screen.features
            == Delete(s.(features := front), id, true, Ok).screen.features
               + Delete(s.(features := back), id, true, Ok).screen.features
    ensures forall f :: f in Delete(s, id, true, Ok).screen.features <==> f in s.features && f.id != id
  {
    FilterConcat(front, back, (f: FeatureRow) => f.id != id);
  }

  /** Every save the page sends carries a heading the server accepts: a
      heading that is not blank is not empty. */
  lemma SentHeadingPassesServerCheck(
    s: Screen, reply: Reply, reload: Load, t: FeatureRoutes.FeatureTable, fails: FeatureRoutes.Failures)
    requires Submit(s, reply, reload).request.Some?
    ensures var body := Submit(s, reply, reload).request.value.body.value;
            var input := FeatureRoutes.FeatureInput(Some(body.heading), Some(body.description));
            FeatureRoutes.Create(t, input, fails).response.status != 400
            && (s.editingId.Some? ==>
                  FeatureRoutes.Update(t, s.editingId.value, input, fails).response.status != 400)
  {
    assert !Blank(s.form.heading);
    assert s.form.heading != "";
  }

  /** The PUT of an edit goes to the resource of the item being edited: the
      last path segment reads back as its id. */
  lemma PutTargetsEditedItem(s: Screen)
    requires s.editingId.Some?
    ensures var url := SaveRequest(s).url;
            |url| > |ApiBase| + 1 && url[..|ApiBase| + 1] == ApiBase + "/"
            && ParseNat(url[|ApiBase| + 1..]) == Some(s.editingId.value)
  {
    var segment := NumberToString(s.editingId.value);
    var url := SaveRequest(s).url;
    assert url == (ApiBase + "/") + segment;
    assert url[|ApiBase| + 1..] == segment;
    ParseNumberToString(s.editingId.value);
  }

  /** Editing an item and saving it sends a PUT for that item with its
      heading, and with its description or "" when it had none. */
  lemma EditThenSaveUpdatesItem(s: Screen, item: FeatureRow, reply: Reply, reload: Load)
    requires !Blank(item.heading)
    ensures Submit(Edit(s, item), reply, reload).request
            == Some(Request(PUT, ApiBase + "/" + NumberToString(item.id),
                            Some(Form(item.heading, item.description.GetOr("")))))
  {
  }

  /** The first load decides what the page shows: the loaded list, or an
      empty list with an error; either way the form is empty and in create mode. */
  lemma FirstLoad(load: Load)
    ensures var s := ApplyLoad(Initial(), load);
            !s.loading && s.form == EmptyForm && s.editingId == None && s.submitError == None
            && (load.Loaded? ==> s.features == load.items && s.loadError == None)
            && (!load.Loaded? ==> s.features == [] && s.loadError.Some?)
  {
  }

  /** A successful save reloads the list and leaves the form empty and in create mode. */
  lemma SuccessfulSaveResets(s: Screen, items: seq<FeatureRow>)
    requires !Blank(s.form.heading)
    ensures var s' := Submit(s, Ok, Loaded(items)).screen;
            s'.features == items && s'.form == EmptyForm && s'.editingId == None
            && s'.submitError == None && s'.loadError == None && !s'.loading
  {
  }
}
