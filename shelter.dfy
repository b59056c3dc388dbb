/**
 * The state of the shelter component and its event handlers. Each field is
 * one of the component's state variables; each method is one handler and
 * assigns the fields its setters assign, in the same order. The fields are
 * public so that the rendering layer (not modelled) can read them, as the
 * JSX does.
 */
module Shelter {
  import opened Text
  import opened Email
  import opened Roster

  /** The adoption form's three inputs. */
  datatype Draft = Draft(name: string, email: string, notes: string)

  const EmptyDraft := Draft("", "", "")

  const InvalidDraftMsg := "Please provide your full name and a valid email address."

  const SurrenderMsg := "Thanks — the creature has been accepted. Hagrid will give it a biscuit."

  /** The confirmation shown after an adoption, greeting the adopter by the
      text of the name field before its first space (untrimmed). */
  function ThanksMsg(name: string): string {
    "Thanks, " + FirstWord(name) + "! Your adoption request was recorded."
  }

  /** The form check of the submit handler: a name that is not blank after
      trimming, and an address the pattern accepts. */
  predicate DraftAccepted(d: Draft) {
    Trim(d.name) != "" && ValidEmail(d.email)
  }

  /** The adopter record stored on an adopted animal: the trimmed inputs and
      the submission time. */
  function AdopterOf(d: Draft, date: string): Adopter {
    Adopter(Trim(d.name), Trim(d.email), Trim(d.notes), date)
  }

  /** A draft is refused exactly when its name is all whitespace or its
      address does not match the pattern. */
  lemma DraftAcceptedIff(d: Draft)
    ensures DraftAccepted(d) <==> !AllSpace(d.name) && RegexMatch(d.email)
  {
    TrimEmptyIff(d.name);
    ValidEmailIsRegex(d.email);
  }

  /** The stored address of an accepted draft is the address as typed:
      trimming cannot change an address without whitespace. */
  lemma AcceptedEmailStoredVerbatim(d: Draft, date: string)
    requires DraftAccepted(d)
    ensures AdopterOf(d, date).email == d.email
  {
    ValidEmailIsTrimmed(d.email);
  }

  /** A blank name is refused, whatever the address. */
  lemma BlankNameRefused()
    ensures !DraftAccepted(Draft("", "a@b.com", ""))
  {
    TrimEmptyIff("");
  }

  /** An address without `@` is refused. */
  lemma BadAddressRefused()
    ensures !DraftAccepted(Draft("Ron Weasley", "not-an-email", ""))
  {
    SampleRefused();
  }

  /** A full draft is accepted and stores the name as typed. */
  lemma FullDraftAccepted(date: string)
    ensures DraftAccepted(Draft("Ron Weasley", "ron@weasley.com", "love dragons"))
    ensures AdopterOf(Draft("Ron Weasley", "ron@weasley.com", "love dragons"), date).name == "Ron Weasley"
  {
    SampleAccepted();
    TrimUnpaddedIff("Ron Weasley");
  }

  /** The greeting uses the text before the first space: "Ron Weasley" is
      thanked as "Ron". */
  lemma GreetsByFirstName()
    ensures ThanksMsg("Ron Weasley") == ThanksMsg("Ron")
  {
    assert ' ' !in "Ron";
    FirstWordOf("Ron", "Weasley");
    assert "Ron" + " " + "Weasley" == "Ron Weasley";
  }

  class ShelterApp {
    var animals: seq<Animal>
    var query: string
    var filterAvailable: bool
    /** The record captured when it was opened: a copy, not refreshed when
        the roster entry with its id is adopted. */
    var selected: Option<Animal>
    var showAdoptForm: bool
    var form: Draft
    var statusMsg: string

    /** The adoption form is shown only for a selected animal; the submit
        handler reads `selected.id` relying on this. */
    ghost predicate Valid()
      reads this
    {
      showAdoptForm ==> selected.Some?
    }

    /** The initial render: `roster` is the seed list or the cached copy. */
    constructor (roster: seq<Animal>)
      ensures Valid()
      ensures animals == roster && query == "" && !filterAvailable
      ensures selected == None && !showAdoptForm
      ensures form == EmptyDraft && statusMsg == ""
    {
      animals := roster;
      query := "";
      filterAvailable := false;
      selected := None;
      showAdoptForm := false;
      form := EmptyDraft;
      statusMsg := "";
    }

    /** The records the grid shows: exactly the roster records that match the
        current query and availability toggle, in roster order. */
    function Filtered(): (r: seq<Animal>)
      reads this
      ensures forall x :: x in r <==> x in animals && Matches(x, query, filterAvailable)
    {
      var r := Query(animals, query, filterAvailable);
      assert forall x :: x in r <==> x in animals && Matches(x, query, filterAvailable) by {
        forall x { QueryMembers(animals, query, filterAvailable, x); }
      }
      r
    }

    /** The search box. */
    method SetQuery(q: string)
      requires Valid()
      modifies this
      ensures Valid()
      ensures query == q
      ensures animals == old(animals) && filterAvailable == old(filterAvailable)
      ensures selected == old(selected) && showAdoptForm == old(showAdoptForm)
      ensures form == old(form) && statusMsg == old(statusMsg)
    {
      query := q;
    }

    /** The "Show only adoptable" checkbox. */
    method SetFilterAvailable(b: bool)
      requires Valid()
      modifies this
      ensures Valid()
      ensures filterAvailable == b
      ensures animals == old(animals) && query == old(query)
      ensures selected == old(selected) && showAdoptForm == old(showAdoptForm)
      ensures form == old(form) && statusMsg == old(statusMsg)
    {
      filterAvailable := b;
    }

    /** "Details": select the animal with the form hidden, an empty draft and
        no status message. */
    method OpenDetails(animal: Animal)
      requires Valid()
      modifies this
      ensures Valid()
      ensures selected == Some(animal) && !showAdoptForm
      ensures form == EmptyDraft && statusMsg == ""
      ensures animals == old(animals) && query == old(query) && filterAvailable == old(filterAvailable)
    {
      selected := Some(animal);
      showAdoptForm := false;
      form := EmptyDraft;
      statusMsg := "";
    }

    /** "Close": no selection and no form; the draft and the status message
        are left as they are. */
    method CloseDetails()
      requires Valid()
      modifies this
      ensures Valid()
      ensures selected == None && !showAdoptForm
      ensures form == old(form) && statusMsg == old(statusMsg)
      ensures animals == old(animals) && query == old(query) && filterAvailable == old(filterAvailable)
    {
      selected := None;
      showAdoptForm := false;
    }

    /** "Adopt" / "Start Adoption": select the animal and show the form,
        clearing the status message. The draft is kept, not reset, and the
        animal's availability is not checked here (the buttons for an
        unavailable animal are disabled or hidden). */
    method StartAdopt(animal: Animal)
      requires Valid()
      modifies this
      ensures Valid()
      ensures selected == Some(animal) && showAdoptForm
      ensures statusMsg == "" && form == old(form)
      ensures animals == old(animals) && query == old(query) && filterAvailable == old(filterAvailable)
    {
      selected := Some(animal);
      showAdoptForm := true;
      statusMsg := "";
    }

    /** "Cancel" in the adoption form: hide the form, nothing else. */
    method CancelAdopt()
      requires Valid()
      modifies this
      ensures Valid()
      ensures !showAdoptForm
      ensures selected == old(selected) && form == old(form) && statusMsg == old(statusMsg)
      ensures animals == old(animals) && query == old(query) && filterAvailable == old(filterAvailable)
    {
      showAdoptForm := false;
    }

    /** Typing in the form's name input. */
    method SetFormName(v: string)
      requires Valid()
      modifies this
      ensures Valid()
      ensures form == old(form).(name := v)
      ensures selected == old(selected) && showAdoptForm == old(showAdoptForm) && statusMsg == old(statusMsg)
      ensures animals == old(animals) && query == old(query) && filterAvailable == old(filterAvailable)
    {
      form := form.(name := v);
    }

    /** Typing in the form's email input. */
    method SetFormEmail(v: string)
      requires Valid()
      modifies this
      ensures Valid()
      ensures form == old(form).(email := v)
      ensures selected == old(selected) && showAdoptForm == old(showAdoptForm) && statusMsg == old(statusMsg)
      ensures animals == old(animals) && query == old(query) && filterAvailable == old(filterAvailable)
    {
      form := form.(email := v);
    }

    /** Typing in the form's notes area. */
    method SetFormNotes(v: string)
      requires Valid()
      modifies this
      ensures Valid()
      ensures form == old(form).(notes := v)
      ensures selected == old(selected) && showAdoptForm == old(showAdoptForm) && statusMsg == old(statusMsg)
      ensures animals == old(animals) && query == old(query) && filterAvailable == old(filterAvailable)
    {
      form := form.(notes := v);
    }

    /** "Submit Request", at time `date`. The form is on screen, so an animal
        is selected. A refused draft only sets the error message; an accepted
        one rewrites the roster entries with the selected id, greets the
        adopter and empties the draft, leaving the selection and the form
        open. `ok` tells which of the two happened. */
    method SubmitAdoption(date: string) returns (ok: bool)
      requires Valid() && showAdoptForm
      modifies this
      ensures Valid()
      ensures ok <==> DraftAccepted(old(form))
      ensures !ok ==> && statusMsg == InvalidDraftMsg
                      && animals == old(animals) && form == old(form)
      ensures ok ==> && animals == MarkAdopted(old(animals), old(selected).value.id, AdopterOf(old(form), date))
                     && statusMsg == ThanksMsg(old(form).name)
                     && form == EmptyDraft
      ensures selected == old(selected) && showAdoptForm == old(showAdoptForm)
      ensures query == old(query) && filterAvailable == old(filterAvailable)
    {
      if Trim(form.name) == "" || !ValidEmail(form.email) {
        statusMsg := InvalidDraftMsg;
        return false;
      }
      animals := MarkAdopted(animals, selected.value.id, AdopterOf(form, date));
      statusMsg := ThanksMsg(form.name);
      form := EmptyDraft;
      ok := true;
    }

    /** "Accept into Shelter", with the intake fields as typed and the clock
        reading `now` in milliseconds: prepend the new record and confirm. */
    method SurrenderAnimal(fields: Intake, now: nat)
      requires Valid()
      modifies this
      ensures Valid()
      ensures animals == Surrender(old(animals), NewAnimal(fields, now))
      ensures statusMsg == SurrenderMsg
      ensures selected == old(selected) && showAdoptForm == old(showAdoptForm) && form == old(form)
      ensures query == old(query) && filterAvailable == old(filterAvailable)
    {
      animals := Surrender(animals, NewAnimal(fields, now));
      statusMsg := SurrenderMsg;
    }
  }

  /** A session: open an available record, start adopting it, type an
      acceptable draft and submit. The roster entry is adopted and drops out
      of the "only adoptable" listing, while the copy in `selected` still
      reads as available and no longer matches any roster entry. */
  method AdoptionSession(roster: seq<Animal>, k: nat, d: Draft, date: string) returns (app: ShelterApp)
    requires k < |roster| && roster[k].available
    requires DraftAccepted(d)
    ensures app.Valid()
    ensures |app.animals| == |roster|
    ensures app.animals[k] == Adopted(roster[k], AdopterOf(d, date))
    ensures app.selected == Some(roster[k]) && app.selected.value.available
    ensures app.selected.value !in app.animals
    ensures forall x :: x in Query(app.animals, "", true) ==> x.id != roster[k].id
  {
    app := new ShelterApp(roster);
    app.OpenDetails(roster[k]);
    app.StartAdopt(roster[k]);
    app.SetFormName(d.name);
    app.SetFormEmail(d.email);
    app.SetFormNotes(d.notes);
    assert app.form == d;
    var ok := app.SubmitAdoption(date);
    AdoptionStalesCopy(roster, roster[k], AdopterOf(d, date));
    AdoptedLeavesAvailableListing(roster, roster[k].id, AdopterOf(d, date), "");
  }
}
