/**
 * The contact collision checker of the address book window
 * (gm_aw_check_contact_collision): before a contact is added or modified, the
 * directory is searched first for a contact with the same speed dial (a hard
 * error), then for one with the same full name or URL (a warning the user may
 * override).
 */
module Collision {
  import opened Wrappers
  import opened Contacts

  /** The answers a modal GTK dialog can return. */
  datatype Response = Yes | No | Ok | Accept | Cancel | DeleteEvent | OtherResponse

  /** The button sets of the dialogs of the window. */
  datatype Buttons = OkOnly | YesNo | CancelOk

  /** A dialog returns one of its own buttons' responses, or DeleteEvent when
      it is closed from the window manager. */
  predicate Offers(b: Buttons, r: Response) {
    r == DeleteEvent ||
    match b
    case OkOnly => r == Ok
    case YesNo => r == Yes || r == No
    case CancelOk => r == Cancel || r == Accept
  }

  datatype Severity = Error | Warning

  /** The collision dialog: its kind, its buttons and the contact it shows. */
  datatype Prompt = Prompt(severity: Severity, buttons: Buttons, shown: Contact)

  /** What one collision check decides, which dialog it showed, and which
      lookups it sent to the backend, in order. */
  datatype Verdict = Verdict(collision: bool, prompt: Option<Prompt>, queries: seq<Query>)

  /** The three fields a collision is looked for on. */
  datatype Field = FullName | Url | SpeedDial

  function Get(c: Contact, f: Field): Option<string> {
    match f
    case FullName => c.fullname
    case Url => c.url
    case SpeedDial => c.speeddial
  }

  /** Whether field f of the new contact must be checked, written as the
      source's three check_* assignments: the new value must be filled, and
      there is no old contact, or the old value is NULL, or it differs. */
  function Checked(n: Contact, prev: Option<Contact>, f: Field): (r: bool)
    ensures r <==> Filled(Get(n, f)) &&
                   (prev.None? || Get(prev.value, f).None? || Get(prev.value, f).value != Get(n, f).value)
  {
    if Filled(Get(n, f)) then
      prev.None?
      || (Get(n, f).Some? && Get(prev.value, f).None?)
      || (Get(prev.value, f).Some? && Get(n, f).Some? && Get(prev.value, f).value != Get(n, f).value)
    else
      false
  }

  /** Phase 0: every book, exact matches, filtered by speed dial only. */
  function SpeedDialQuery(n: Contact): Query {
    Query(None, false, None, None, None, None, n.speeddial)
  }

  /** Phase 1: every book, exact matches, filtered by the checked fields among
      full name and URL. */
  function IdentityQuery(n: Contact, prev: Option<Contact>): Query {
    Query(None, false,
          if Checked(n, prev, FullName) then n.fullname else None,
          if Checked(n, prev, Url) then n.url else None,
          None, None, None)
  }

  /** The decision of the checker, phase by phase: the specification the
      method CheckContactCollision is proved against. */
  function Decide(newContact: Option<Contact>, prev: Option<Contact>, backend: Backend, answer: Response): Verdict {
    if newContact.None? then Verdict(true, None, [])
    else
      var n := newContact.value;
      var q0 := if Checked(n, prev, SpeedDial) then [SpeedDialQuery(n)] else [];
      var found0 := if Checked(n, prev, SpeedDial) then backend(SpeedDialQuery(n)).contacts else [];
      if found0 != [] then
        Verdict(answer != Yes, Some(Prompt(Error, OkOnly, found0[0])), q0)
      else
        var identity := Checked(n, prev, FullName) || Checked(n, prev, Url);
        var q1 := if identity then [IdentityQuery(n, prev)] else [];
        var found1 := if identity then backend(IdentityQuery(n, prev)).contacts else [];
        if found1 != [] then
          Verdict(answer != Yes, Some(Prompt(Warning, YesNo, found1[0])), q0 + q1)
        else
          Verdict(false, None, q0 + q1)
  }

  /** The two-pass loop of the source: pass 0 looks up the speed dial, pass 1
      the full name and URL; the first pass that finds a contact shows one
      dialog, takes the user's answer and ends the loop. */
  method CheckContactCollision(newContact: Option<Contact>, prev: Option<Contact>, backend: Backend, answer: Response)
    returns (collision: bool, prompt: Option<Prompt>, queries: seq<Query>)
    ensures Verdict(collision, prompt, queries) == Decide(newContact, prev, backend, answer)
  {
    if newContact.None? {
      return true, None, [];
    }
    var n := newContact.value;
    var checkFullname := Checked(n, prev, FullName);
    var checkUrl := Checked(n, prev, Url);
    var checkSpeeddial := Checked(n, prev, SpeedDial);

    var contacts: seq<Contact> := [];
    var cpt := 0;
    collision, prompt, queries := false, None, [];
    while cpt < 2
      invariant 0 <= cpt <= 2
      invariant !collision && prompt.None? && contacts == []
      invariant cpt == 0 ==> queries == []
      invariant cpt == 1 ==> queries == if checkSpeeddial then [SpeedDialQuery(n)] else []
      invariant cpt >= 1 && checkSpeeddial ==> backend(SpeedDialQuery(n)).contacts == []
      invariant cpt == 2 && (checkFullname || checkUrl) ==>
                  queries == (if checkSpeeddial then [SpeedDialQuery(n)] else []) + [IdentityQuery(n, prev)] &&
                  backend(IdentityQuery(n, prev)).contacts == []
      invariant cpt == 2 && !(checkFullname || checkUrl) ==>
                  queries == if checkSpeeddial then [SpeedDialQuery(n)] else []
    {
      if cpt == 0 {
        if checkSpeeddial {
          var q := SpeedDialQuery(n);
          contacts := backend(q).contacts;
          queries := queries + [q];
        }
      } else if checkFullname || checkUrl {
        var q := Query(None, false,
                       if checkFullname then n.fullname else None,
                       if checkUrl then n.url else None,
                       None, None, None);
        contacts := backend(q).contacts;
        queries := queries + [q];
      }

      if contacts != [] {
        prompt := Some(if cpt == 0 then Prompt(Error, OkOnly, contacts[0])
                       else Prompt(Warning, YesNo, contacts[0]));
        collision := answer != Yes;
        break;
      }

      cpt := cpt + 1;
    }
  }

  /** A NULL new contact is reported as a collision, with no dialog and no lookup. */
  lemma NullContactCollides(prev: Option<Contact>, backend: Backend, answer: Response)
    ensures Decide(None, prev, backend, answer) == Verdict(true, None, [])
  {
  }

  /** Re-saving a contact whose full name, URL and speed dial are unchanged
      checks nothing, sends no lookup and never collides, whatever else was
      edited (the comment, the e-mail, ...). */
  lemma UnchangedKeysNeverCollide(n: Contact, o: Contact, backend: Backend, answer: Response)
    requires n.fullname == o.fullname && n.url == o.url && n.speeddial == o.speeddial
    ensures !Checked(n, Some(o), FullName) && !Checked(n, Some(o), Url) && !Checked(n, Some(o), SpeedDial)
    ensures Decide(Some(n), Some(o), backend, answer) == Verdict(false, None, [])
  {
  }

  /** A speed dial match is fatal: the error dialog offers only OK, so
      whatever the user answers the result is a collision, and the full name
      and URL are not looked up. */
  lemma SpeedDialMatchIsFatal(n: Contact, prev: Option<Contact>, backend: Backend, answer: Response)
    requires Checked(n, prev, SpeedDial) && backend(SpeedDialQuery(n)).contacts != []
    requires Offers(OkOnly, answer)
    ensures Decide(Some(n), prev, backend, answer) ==
            Verdict(true, Some(Prompt(Error, OkOnly, backend(SpeedDialQuery(n)).contacts[0])), [SpeedDialQuery(n)])
  {
  }

  /** A full name or URL match, after the speed dial found nothing, is a
      warning: the result is a collision unless the user answers YES. */
  lemma IdentityMatchIsOverridable(n: Contact, prev: Option<Contact>, backend: Backend, answer: Response)
    requires !Checked(n, prev, SpeedDial) || backend(SpeedDialQuery(n)).contacts == []
    requires Checked(n, prev, FullName) || Checked(n, prev, Url)
    requires backend(IdentityQuery(n, prev)).contacts != []
    ensures var v := Decide(Some(n), prev, backend, answer);
            v.collision == (answer != Yes) &&
            v.prompt == Some(Prompt(Warning, YesNo, backend(IdentityQuery(n, prev)).contacts[0])) &&
            v.queries[|v.queries| - 1] == IdentityQuery(n, prev)
  {
  }

  /** The lookups the check makes: the speed-dial lookup exactly when speed
      dial is checked, then the name/URL lookup exactly when full name or URL
      is checked and the speed dial was free. Each is an exact lookup over
      every book, filtered by exactly the checked fields with their new
      values, and never by none. */
  lemma {:induction false} LookupsUseCheckedFieldsOnly(n: Contact, prev: Option<Contact>, backend: Backend, answer: Response)
    ensures var v := Decide(Some(n), prev, backend, answer);
            (v.collision ==> v.prompt.Some?) &&
            |v.queries| <= 2 &&
            (forall q <- v.queries :: q == SpeedDialQuery(n) || q == IdentityQuery(n, prev)) &&
            (SpeedDialQuery(n) in v.queries <==> Checked(n, prev, SpeedDial)) &&
            (IdentityQuery(n, prev) in v.queries <==>
               (Checked(n, prev, FullName) || Checked(n, prev, Url)) &&
               (Checked(n, prev, SpeedDial) ==> backend(SpeedDialQuery(n)).contacts == [])) &&
            forall q <- v.queries ::
              q.book.None? && !q.partial && q.categories.None? && q.location.None? &&
              (q.fullname.Some? || q.url.Some? || q.speeddial.Some?) &&
              (q.fullname.Some? ==> Checked(n, prev, FullName) && q.fullname == n.fullname) &&
              (q.url.Some? ==> Checked(n, prev, Url) && q.url == n.url) &&
              (q.speeddial.Some? ==> Checked(n, prev, SpeedDial) && q.speeddial == n.speeddial)
    ensures SpeedDialQuery(n).speeddial == n.speeddial
    ensures IdentityQuery(n, prev).fullname.Some? <==> Checked(n, prev, FullName)
    ensures IdentityQuery(n, prev).url.Some? <==> Checked(n, prev, Url)
  {
    var v := Decide(Some(n), prev, backend, answer);
    assert SpeedDialQuery(n) != IdentityQuery(n, prev) || !(Checked(n, prev, FullName) || Checked(n, prev, Url));
    forall q <- v.queries
      ensures q == SpeedDialQuery(n) || q == IdentityQuery(n, prev)
    {
    }
  }

  /** No dialog means no match: when neither lookup returns a contact, the
      result is no collision; when one does, a dialog is shown. */
  lemma NoMatchNoCollision(n: Contact, prev: Option<Contact>, backend: Backend, answer: Response)
    ensures var v := Decide(Some(n), prev, backend, answer);
            v.prompt.None? <==> (forall q <- v.queries :: backend(q).contacts == [])
    ensures var v := Decide(Some(n), prev, backend, answer);
            v.prompt.None? ==> !v.collision
  {
  }
}
