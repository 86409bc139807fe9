/**
 * The commit logic of the window's two edit dialogs. Each dialog is run
 * until it is closed: every round is one press of a button with the entries
 * as the user left them. A finite script of rounds stands for the user; when
 * the script ends before the dialog closes, the dialog is still open.
 */
module Dialogs {
  import opened Wrappers
  import opened Contacts
  import opened Collision
  import BookUrl
  import Window

  /** How a dialog ended: a commit, Cancel or the window's close button, a
      response that ends the loop without doing anything, or not yet. */
  datatype Outcome = Committed | Cancelled | Abandoned | Open

  /** What a dialog did along the way, in order: error messages shown,
      collision dialogs shown, and calls into the directory backend. */
  datatype Event =
    | MissingInformation
    | CollisionShown(prompt: Prompt)
    | AddressbookAdded(book: Book)
    | AddressbookModified(book: Book)
    | ContactAdded(target: Option<Book>, contact: Contact)
    | ContactModified(target: Option<Book>, contact: Contact)

  datatype Run = Run(outcome: Outcome, events: seq<Event>)

  function Then(events: seq<Event>, rest: Run): Run {
    Run(rest.outcome, events + rest.events)
  }

  /** A round's run followed by the rest: the round's own run if it closed
      the dialog, otherwise its events before the rest. */
  function Continue(st: Run, rest: Run): Run {
    if st.outcome != Open then st else Then(st.events, rest)
  }

  /** One more round of a dialog loop, as a fact about runs: the events so
      far and the round's own, then either the round's outcome or the rest. */
  lemma Advance(whole: Run, before: seq<Event>, cur: Run, next: Run, open: bool, result: Outcome, step: seq<Event>)
    requires whole == Then(before, cur) && cur == Continue(Run(if open then Open else result, step), next)
    requires !open ==> result != Open
    ensures open ==> whole == Then(before + step, next)
    ensures !open ==> whole == Run(result, before + step)
  {
    if open {
      assert before + step + next.events == before + (step + next.events);
    }
  }

  /** The last event of a run, the backend call of a commit. */
  function LastEvent(events: seq<Event>): Event
    requires events != []
  {
    events[|events| - 1]
  }

  // ================================================================ contact dialog

  /** The texts of the contact dialog's entries. */
  datatype ContactEntries = ContactEntries(fullname: string, url: string, email: string, categories: string, speeddial: string)

  /** One round: the button pressed, the entries, the active entry of the
      local address book menu, and the user's answer to the collision dialog
      if one is shown. */
  datatype ContactRound = ContactRound(response: Response, entries: ContactEntries, bookIndex: int, collisionAnswer: Response)

  /** What the dialog was opened with: the selected book, the contact (NULL
      for a new one), whether an existing contact is edited, the local books
      of the backend, the book gm_addressbook_new returns, and the backend. */
  datatype ContactContext = ContactContext(
    addressbook: Option<Book>,
    contact: Option<Contact>,
    editExisting: bool,
    localBooks: seq<Book>,
    freshBook: Book,
    backend: Backend)

  predicate ContactContextOk(ctx: ContactContext) {
    ctx.editExisting ==> ctx.contact.Some?
  }

  /** An accept is valid when the full name or the URL is non-empty. */
  predicate ContactValid(e: ContactEntries) {
    e.fullname != "" || e.url != ""
  }

  /** The contact built from the entries: the typed texts, the old uid for
      an edited contact; it has a full name or URL for the collision check
      exactly when the entries are valid. */
  function NewContact(e: ContactEntries, ctx: ContactContext): (c: Contact)
    requires ContactContextOk(ctx)
    ensures c.fullname == Some(e.fullname) && c.url == Some(e.url) && c.speeddial == Some(e.speeddial)
    ensures c.email == Some(e.email) && c.categories == Some(e.categories)
    ensures c.uid == if ctx.editExisting then ctx.contact.value.uid else None
    ensures ContactValid(e) <==> Filled(c.fullname) || Filled(c.url)
  {
    Contact(if ctx.editExisting then ctx.contact.value.uid else None,
            Some(e.fullname), Some(e.url), Some(e.email), Some(e.categories), Some(e.speeddial),
            None, None, None, Other)
  }

  /** The book created when a new contact is added while no local book is
      chosen in the menu. */
  function PersonalBook(ctx: ContactContext): Book {
    ctx.freshBook.(name := Some("Personal"))
  }

  /** The book the contact is written to: the selected one when editing,
      otherwise the local book chosen in the menu, or a new "Personal" one. */
  function Target(r: ContactRound, ctx: ContactContext): (t: Option<Book>)
    ensures ctx.editExisting ==> t == ctx.addressbook
    ensures !ctx.editExisting ==> t.Some?
    ensures !ctx.editExisting && 0 <= r.bookIndex < |ctx.localBooks| ==> t == Some(ctx.localBooks[r.bookIndex])
    ensures !ctx.editExisting && !(0 <= r.bookIndex < |ctx.localBooks|) ==>
              t.value.name == Some("Personal") && t.value.aid == ctx.freshBook.aid && t.value.url == ctx.freshBook.url
  {
    if ctx.editExisting then ctx.addressbook
    else if 0 <= r.bookIndex < |ctx.localBooks| then Some(ctx.localBooks[r.bookIndex])
    else Some(PersonalBook(ctx))
  }

  /** The creation of the "Personal" book, when the contact goes there. */
  function Created(r: ContactRound, ctx: ContactContext): (ev: seq<Event>)
    ensures |ev| <= 1
    ensures ev != [] <==> !ctx.editExisting && !(0 <= r.bookIndex < |ctx.localBooks|)
    ensures ev != [] ==> ev[0] == AddressbookAdded(Target(r, ctx).value)
  {
    if !ctx.editExisting && !(0 <= r.bookIndex < |ctx.localBooks|) then [AddressbookAdded(PersonalBook(ctx))] else []
  }

  function PrevContact(ctx: ContactContext): Option<Contact> {
    if ctx.editExisting then ctx.contact else None
  }

  function CheckOf(r: ContactRound, ctx: ContactContext): Verdict
    requires ContactContextOk(ctx)
  {
    Decide(Some(NewContact(r.entries, ctx)), PrevContact(ctx), ctx.backend, r.collisionAnswer)
  }

  function Shown(v: Verdict): seq<Event> {
    if v.prompt.Some? then [CollisionShown(v.prompt.value)] else []
  }

  /** The backend write a committing round issues. */
  function WriteOf(r: ContactRound, ctx: ContactContext): Event
    requires ContactContextOk(ctx)
  {
    if ctx.editExisting then ContactModified(Target(r, ctx), NewContact(r.entries, ctx))
    else ContactAdded(Target(r, ctx), NewContact(r.entries, ctx))
  }

  predicate IsContactWrite(e: Event) {
    e.ContactAdded? || e.ContactModified?
  }

  /** A round that commits: a valid accept whose collision check is negative. */
  predicate Commits(r: ContactRound, ctx: ContactContext)
    requires ContactContextOk(ctx)
  {
    r.response == Accept && ContactValid(r.entries) && !CheckOf(r, ctx).collision
  }

  predicate Closes(r: ContactRound) {
    r.response == Cancel || r.response == DeleteEvent
  }

  /** One round of the contact dialog; Open means the dialog is run again. */
  function ContactStep(r: ContactRound, ctx: ContactContext): (st: Run)
    requires ContactContextOk(ctx)
    ensures st.outcome != Abandoned
    ensures st.outcome == Cancelled <==> r.response in {Cancel, DeleteEvent}
    ensures st.outcome == Committed ==> r.response == Accept && ContactValid(r.entries)
    ensures r.response !in {Accept, Cancel, DeleteEvent} ==> st == Run(Open, [])
  {
    match r.response
    case Accept =>
      if !ContactValid(r.entries) then Run(Open, [MissingInformation])
      else
        var v := CheckOf(r, ctx);
        if v.collision then Run(Open, Created(r, ctx) + Shown(v))
        else Run(Committed, Created(r, ctx) + Shown(v) + [WriteOf(r, ctx)])
    case Cancel => Run(Cancelled, [])
    case DeleteEvent => Run(Cancelled, [])
    case _ => Run(Open, [])
  }

  /** The contact dialog over a script of rounds. */
  function ContactRun(rounds: seq<ContactRound>, ctx: ContactContext): Run
    requires ContactContextOk(ctx)
    decreases |rounds|
  {
    if rounds == [] then Run(Open, [])
    else
      Continue(ContactStep(rounds[0], ctx), ContactRun(rounds[1..], ctx))
  }

  /** One round's run: it never abandons the dialog; it commits exactly on a
      valid accept without collision, and then its last event is the write
      of that round's contact; it is cancelled exactly by Cancel or a close;
      no other event of it is a contact write. */
  lemma ContactStepFacts(r: ContactRound, ctx: ContactContext)
    requires ContactContextOk(ctx)
    ensures var st := ContactStep(r, ctx);
            st.outcome != Abandoned &&
            (st.outcome == Committed <==> Commits(r, ctx)) &&
            (st.outcome == Cancelled <==> Closes(r)) &&
            (st.outcome == Committed ==> st.events != [] && LastEvent(st.events) == WriteOf(r, ctx)) &&
            (forall j :: 0 <= j < |st.events| ==>
               (IsContactWrite(st.events[j]) <==> st.outcome == Committed && j == |st.events| - 1))
  {
    var st := ContactStep(r, ctx);
    if r.response == Accept && ContactValid(r.entries) {
      var v := CheckOf(r, ctx);
      assert forall j :: 0 <= j < |Created(r, ctx) + Shown(v)| ==> !IsContactWrite((Created(r, ctx) + Shown(v))[j]);
    }
  }

  /** The run from round i on, unfolded by one round. */
  lemma ContactRunUnfold(rounds: seq<ContactRound>, i: nat, ctx: ContactContext)
    requires ContactContextOk(ctx) && i < |rounds|
    ensures ContactRun(rounds[i..], ctx) == Continue(ContactStep(rounds[i], ctx), ContactRun(rounds[i + 1..], ctx))
  {
    assert rounds[i..][0] == rounds[i];
    assert rounds[i..][1..] == rounds[i + 1..];
  }

  /** The body of the contact dialog's loop for one response: the new
      `valid` and `collision` flags, the outcome if the loop ends, and the
      events. */
  method ContactResponse(r: ContactRound, ctx: ContactContext)
    returns (valid: bool, collision: bool, outcome: Outcome, step: seq<Event>)
    requires ContactContextOk(ctx)
    ensures ContactStep(r, ctx) == Run(if collision then Open else outcome, step)
    ensures !collision ==> valid && outcome != Open
  {
    collision := true;
    outcome := Open;
    step := [];
    valid := ContactValid(r.entries);
    match r.response {
      case Accept =>
        if valid {
          var n := NewContact(r.entries, ctx);
          var prompt, queries;
          collision, prompt, queries := CheckContactCollision(Some(n), PrevContact(ctx), ctx.backend, r.collisionAnswer);
          var shown := if prompt.Some? then [CollisionShown(prompt.value)] else [];
          step := Created(r, ctx) + shown;
          if !collision {
            step := step + [WriteOf(r, ctx)];
            outcome := Committed;
          }
        } else {
          step := [MissingInformation];
        }
      case Cancel =>
        collision := false;
        valid := true;
        outcome := Cancelled;
      case DeleteEvent =>
        collision := false;
        valid := true;
        outcome := Cancelled;
      case _ =>
    }
  }

  /** The while (!valid) loop of gm_addressbook_window_edit_contact_dialog_run.
      `collision` starts TRUE and is TRUE again at the top of every round
      that follows, so only a valid accept without collision, Cancel or a
      close ends the loop. */
  method RunContactDialog(ctx: ContactContext, rounds: seq<ContactRound>) returns (outcome: Outcome, events: seq<Event>)
    requires ContactContextOk(ctx)
    ensures Run(outcome, events) == ContactRun(rounds, ctx)
  {
    var collision := true;
    var valid := false;
    var i := 0;
    outcome, events := Open, [];
    while !valid
      invariant 0 <= i <= |rounds|
      invariant !valid ==> collision && outcome == Open
      invariant !valid ==> ContactRun(rounds, ctx) == Then(events, ContactRun(rounds[i..], ctx))
      invariant valid ==> Run(outcome, events) == ContactRun(rounds, ctx)
      decreases |rounds| - i
    {
      if i == |rounds| {
        assert rounds[i..] == [];
        break;
      }
      var r := rounds[i];
      var step, result;
      valid, collision, result, step := ContactResponse(r, ctx);
      ContactRunUnfold(rounds, i, ctx);
      Advance(ContactRun(rounds, ctx), events, ContactRun(rounds[i..], ctx), ContactRun(rounds[i + 1..], ctx),
              collision, result, step);
      i := i + 1;
      events := events + step;
      if !collision {
        outcome := result;
      }

      if collision {
        valid := false;
      }
    }
  }

  /** A contact dialog never ends the way an unexpected response ends the
      address book dialog. */
  lemma {:induction false} ContactRunNeverAbandoned(rounds: seq<ContactRound>, ctx: ContactContext)
    requires ContactContextOk(ctx)
    ensures ContactRun(rounds, ctx).outcome != Abandoned
    decreases |rounds|
  {
    if rounds != [] {
      ContactStepFacts(rounds[0], ctx);
      ContactRunNeverAbandoned(rounds[1..], ctx);
    }
  }

  /** A run writes a contact at most once: a committing run has events, and
      an event is a write exactly when the run commits and it is the last
      event. */
  lemma {:induction false} ContactRunWritesOnce(rounds: seq<ContactRound>, ctx: ContactContext)
    requires ContactContextOk(ctx)
    ensures var run := ContactRun(rounds, ctx);
            (run.outcome == Committed ==> run.events != []) &&
            forall j :: 0 <= j < |run.events| ==>
              (IsContactWrite(run.events[j]) <==> run.outcome == Committed && j == |run.events| - 1)
    decreases |rounds|
  {
    if rounds != [] {
      var st := ContactStep(rounds[0], ctx);
      ContactStepFacts(rounds[0], ctx);
      if st.outcome == Open {
        ContactRunWritesOnce(rounds[1..], ctx);
        var rest := ContactRun(rounds[1..], ctx);
        var all := st.events + rest.events;
        assert ContactRun(rounds, ctx) == Run(rest.outcome, all);
        forall j | 0 <= j < |all|
          ensures IsContactWrite(all[j]) <==> rest.outcome == Committed && j == |all| - 1
        {
          if j < |st.events| {
            assert all[j] == st.events[j];
          } else {
            assert all[j] == rest.events[j - |st.events|];
          }
        }
      }
    }
  }

  /** A committing run writes the contact of one of its rounds, and that
      round is a valid accept whose collision check was negative. */
  lemma {:induction false} ContactCommitHasSource(rounds: seq<ContactRound>, ctx: ContactContext)
    requires ContactContextOk(ctx)
    ensures var run := ContactRun(rounds, ctx);
            run.outcome == Committed ==>
              run.events != [] &&
              exists k :: 0 <= k < |rounds| && Commits(rounds[k], ctx) && LastEvent(run.events) == WriteOf(rounds[k], ctx)
    decreases |rounds|
  {
    if rounds != [] {
      var st := ContactStep(rounds[0], ctx);
      ContactStepFacts(rounds[0], ctx);
      if st.outcome == Open {
        ContactCommitHasSource(rounds[1..], ctx);
        var rest := ContactRun(rounds[1..], ctx);
        if rest.outcome == Committed {
          var k :| 0 <= k < |rounds[1..]| && Commits(rounds[1..][k], ctx) && LastEvent(rest.events) == WriteOf(rounds[1..][k], ctx);
          assert rounds[k + 1] == rounds[1..][k];
          assert LastEvent(st.events + rest.events) == LastEvent(rest.events);
        }
      } else if st.outcome == Committed {
        assert Commits(rounds[0], ctx);
      }
    }
  }

  /** A cancelled run had a round with Cancel or a close. */
  lemma {:induction false} ContactCancelHasSource(rounds: seq<ContactRound>, ctx: ContactContext)
    requires ContactContextOk(ctx)
    ensures ContactRun(rounds, ctx).outcome == Cancelled ==> exists k :: 0 <= k < |rounds| && Closes(rounds[k])
    decreases |rounds|
  {
    if rounds != [] {
      ContactStepFacts(rounds[0], ctx);
      if ContactStep(rounds[0], ctx).outcome == Open {
        ContactCancelHasSource(rounds[1..], ctx);
        if ContactRun(rounds[1..], ctx).outcome == Cancelled {
          var k :| 0 <= k < |rounds[1..]| && Closes(rounds[1..][k]);
          assert rounds[k + 1] == rounds[1..][k];
        }
      } else {
        assert Closes(rounds[0]) || Commits(rounds[0], ctx);
      }
    }
  }

  /** The dialog is still open exactly when no round commits or closes it:
      a missing-information error or a collision keeps it open. */
  lemma {:induction false} ContactOpenIffNoExit(rounds: seq<ContactRound>, ctx: ContactContext)
    requires ContactContextOk(ctx)
    ensures ContactRun(rounds, ctx).outcome == Open <==>
            forall k :: 0 <= k < |rounds| ==> !Commits(rounds[k], ctx) && !Closes(rounds[k])
    decreases |rounds|
  {
    if rounds != [] {
      ContactStepFacts(rounds[0], ctx);
      ContactOpenIffNoExit(rounds[1..], ctx);
      assert forall k :: 1 <= k < |rounds| ==> rounds[k] == rounds[1..][k - 1];
    }
  }

  /** The contact written by a commit: an edited contact keeps its uid and is
      modified in its own book, a new one has no uid and is added; its full
      name or URL is non-empty, and its speed dial, full name and URL are the
      entries as typed. */
  lemma ContactWriteShape(r: ContactRound, ctx: ContactContext)
    requires ContactContextOk(ctx) && Commits(r, ctx)
    ensures var w := WriteOf(r, ctx);
            (w.ContactModified? <==> ctx.editExisting) &&
            (ctx.editExisting ==> w.contact.uid == ctx.contact.value.uid && w.target == ctx.addressbook) &&
            (!ctx.editExisting ==> w.contact.uid.None?) &&
            (Filled(w.contact.fullname) || Filled(w.contact.url)) &&
            w.contact.fullname == Some(r.entries.fullname) && w.contact.url == Some(r.entries.url) &&
            w.contact.speeddial == Some(r.entries.speeddial)
  {
  }

  // ================================================================ address book dialog

  /** The address book dialog's entries and menus. */
  datatype BookEntries = BookEntries(
    name: string, hostname: string, port: string, base: string, callAttribute: string,
    typeIndex: int, scopeIndex: int)

  datatype BookRound = BookRound(response: Response, entries: BookEntries)

  /** What the dialog was opened with: the book edited (None: a new one),
      whether the backend calls it local, and the book gm_addressbook_new
      returns. */
  datatype BookContext = BookContext(addb: Option<Book>, addbIsLocal: bool, newBook: Book)

  /** The parts of the edited book's URL the dialog starts from. */
  function Defaults(ctx: BookContext): BookUrl.UrlParts {
    BookUrl.ParseUrl(if ctx.addb.Some? then ctx.addb.value.url else None)
  }

  /** The entries as the dialog first shows them: for an edit, the book's
      name, the parsed host, port and base, its call attribute and the scope
      entry of its scope; for a new book, port 389 and "rfc822mailbox". The
      URL entries are plain either way. */
  function InitialEntries(ctx: BookContext): (e: BookEntries)
    ensures ctx.addb.None? ==> e == BookEntries("", "", "389", "", "rfc822mailbox", 0, 0)
    ensures ctx.addb.Some? ==>
              e.hostname == Defaults(ctx).host && e.port == Defaults(ctx).port && e.base == Defaults(ctx).base &&
              e.typeIndex == 0 && (e.scopeIndex == 1 <==> Defaults(ctx).scope == "one") &&
              (e.name == "" <==> ctx.addb.value.name.None? || ctx.addb.value.name.value == "") &&
              (ctx.addb.value.name.Some? ==> e.name == ctx.addb.value.name.value) &&
              (ctx.addb.value.callAttribute.Some? ==> e.callAttribute == ctx.addb.value.callAttribute.value) &&
              (ctx.addb.value.callAttribute.None? ==> e.callAttribute == "rfc822mailbox")
    ensures BookUrl.Plain(e.hostname) && BookUrl.Plain(e.port) && BookUrl.Plain(e.base)
  {
    BookUrl.AsciiLength("389");
    var d := Defaults(ctx);
    var editing := ctx.addb.Some?;
    BookEntries(
      if editing && ctx.addb.value.name.Some? then ctx.addb.value.name.value else "",
      if editing then d.host else "",
      if editing then d.port else "389",
      if editing then d.base else "",
      if editing && ctx.addb.value.callAttribute.Some? then ctx.addb.value.callAttribute.value else "rfc822mailbox",
      0,
      if editing then BookUrl.ScopeIndex(d.scope) else 0)
  }

  /** Whether the accepted book is remote: an edited book the backend does
      not call local, or a new book of a type other than Local (0). */
  predicate IsRemote(ctx: BookContext, e: BookEntries) {
    (ctx.addb.Some? && !ctx.addbIsLocal) || (ctx.addb.None? && e.typeIndex != 0)
  }

  /** The scheme of the URL: an edited book keeps its own. */
  function PrefixOf(ctx: BookContext, e: BookEntries): string {
    if ctx.addb.Some? then Defaults(ctx).prefix else BookUrl.NewPrefix(e.typeIndex)
  }

  datatype Accepted = Accepted(valid: bool, book: Book)

  /** What OK builds from the entries: valid exactly when the entries it
      needs are filled; a remote book's URL parses back into its entries when
      they are clean, and a local one takes the new book's URL. */
  function AcceptBook(ctx: BookContext, e: BookEntries): (a: Accepted)
    ensures a.valid <==> e.name != "" && (IsRemote(ctx, e) ==> e.hostname != "" && e.port != "" && e.base != "")
    ensures a.book.name == Some(e.name) && a.book.callAttribute == Some(e.callAttribute)
    ensures !IsRemote(ctx, e) ==> a.book.url == ctx.newBook.url
    ensures IsRemote(ctx, e) && BookUrl.Clean(PrefixOf(ctx, e)) && PrefixOf(ctx, e) != "file" &&
            BookUrl.Clean(e.hostname) && BookUrl.Clean(e.port) && BookUrl.Clean(e.base) ==>
              BookUrl.ParseUrl(a.book.url) ==
              BookUrl.UrlParts(PrefixOf(ctx, e), e.hostname, e.port, e.base, BookUrl.ScopeName(e.scopeIndex))
  {
    var remote := IsRemote(ctx, e);
    var aid := if ctx.addb.Some? && ctx.addb.value.aid.Some? then ctx.addb.value.aid else ctx.newBook.aid;
    var url := if remote
               then Some(BookUrl.BuildUrl(PrefixOf(ctx, e), e.hostname, e.port, e.base, BookUrl.ScopeName(e.scopeIndex)))
               else ctx.newBook.url;
    var valid := e.name != "" && (remote ==> e.hostname != "" && e.port != "" && e.base != "");
    var scope := BookUrl.ScopeName(e.scopeIndex);
    if remote && BookUrl.Clean(PrefixOf(ctx, e)) && PrefixOf(ctx, e) != "file" &&
       BookUrl.Clean(e.hostname) && BookUrl.Clean(e.port) && BookUrl.Clean(e.base)
    then
      BookUrl.ParseBuiltUrl(PrefixOf(ctx, e), e.hostname, e.port, e.base, scope);
      Accepted(valid, Book(aid, Some(e.name), url, Some(e.callAttribute)))
    else
      Accepted(valid, Book(aid, Some(e.name), url, Some(e.callAttribute)))
  }

  /** The book an accept stores: valid exactly when the name is non-empty
      and, for a remote book, host, port and base are too; a remote book's
      URL is prefix://host:port/base??scope with scope "sub" for the first
      scope entry and "one" otherwise, and the prefix of a new book is "ldap"
      for type 1 and "ils" otherwise; an edited book keeps its id. */
  lemma AcceptedBookShape(ctx: BookContext, e: BookEntries)
    ensures var a := AcceptBook(ctx, e);
            (a.valid <==> e.name != "" && (IsRemote(ctx, e) ==> e.hostname != "" && e.port != "" && e.base != "")) &&
            a.book.name == Some(e.name) && a.book.callAttribute == Some(e.callAttribute) &&
            (IsRemote(ctx, e) ==>
               a.book.url == Some(PrefixOf(ctx, e) + "://" + e.hostname + ":" + e.port + "/" + e.base + "??" +
                                  (if e.scopeIndex == 0 then "sub" else "one"))) &&
            (ctx.addb.None? ==> PrefixOf(ctx, e) == if e.typeIndex == 1 then "ldap" else "ils") &&
            (ctx.addb.Some? && ctx.addb.value.aid.Some? ==> a.book.aid == ctx.addb.value.aid)
  {
  }

  /** Editing a remote book and pressing OK without touching anything stores
      the same book: its URL is parsed into the entries and rebuilt
      unchanged, when its parts are clean and its scope is "sub" or "one". */
  lemma UnchangedEditKeepsBook(ctx: BookContext, prefix: string, host: string, port: string, base: string, scope: string)
    requires ctx.addb.Some? && !ctx.addbIsLocal
    requires BookUrl.Clean(prefix) && BookUrl.Clean(host) && BookUrl.Clean(port) && BookUrl.Clean(base)
    requires prefix != "file" && (scope == "sub" || scope == "one")
    requires ctx.addb.value.url == Some(BookUrl.BuildUrl(prefix, host, port, base, scope))
    requires ctx.addb.value.aid.Some? && ctx.addb.value.name.Some? && ctx.addb.value.name.value != ""
    requires ctx.addb.value.callAttribute.Some?
    ensures AcceptBook(ctx, InitialEntries(ctx)) == Accepted(true, ctx.addb.value)
  {
    assert BookUrl.Clean(scope) by {
      assert forall c <- scope :: c in "subone";
      assert BookUrl.Utf8Length(scope[2..]) == 1;
      assert BookUrl.Utf8Length(scope[1..]) == 2;
    }
    BookUrl.ParseBuiltUrl(prefix, host, port, base, scope);
  }

  /** The backend call of a valid accept: modify when editing, add otherwise. */
  function BookWrite(ctx: BookContext, b: Book): Event {
    if ctx.addb.Some? then AddressbookModified(b) else AddressbookAdded(b)
  }

  /** One round of the address book dialog's do-while loop. `first` tells
      whether `valid` still has its initial TRUE. */
  function BookStep(r: BookRound, ctx: BookContext, first: bool): (st: Run)
    ensures |st.events| <= 1
    ensures st.outcome == Cancelled <==> r.response in {Cancel, DeleteEvent}
    ensures st.outcome == Abandoned <==> first && r.response !in {Accept, Cancel, DeleteEvent}
    ensures st.outcome == Open ==> !first || r.response == Accept
  {
    match r.response
    case Accept =>
      var a := AcceptBook(ctx, r.entries);
      if a.valid then Run(Committed, [BookWrite(ctx, a.book)])
      else Run(Open, [MissingInformation])
    case Cancel => Run(Cancelled, [])
    case DeleteEvent => Run(Cancelled, [])
    case _ => if first then Run(Abandoned, []) else Run(Open, [])
  }

  /** The address book dialog over a script of rounds. */
  function BookRun(rounds: seq<BookRound>, ctx: BookContext, first: bool): Run
    decreases |rounds|
  {
    if rounds == [] then Run(Open, [])
    else Continue(BookStep(rounds[0], ctx, first), BookRun(rounds[1..], ctx, false))
  }

  /** The run from round i on, unfolded by one round. */
  lemma BookRunUnfold(rounds: seq<BookRound>, i: nat, ctx: BookContext, first: bool)
    requires i < |rounds|
    ensures BookRun(rounds[i..], ctx, first) == Continue(BookStep(rounds[i], ctx, first), BookRun(rounds[i + 1..], ctx, false))
  {
    assert rounds[i..][0] == rounds[i];
    assert rounds[i..][1..] == rounds[i + 1..];
  }

  /** A round that commits: a valid accept. */
  predicate BookCommits(r: BookRound, ctx: BookContext) {
    r.response == Accept && AcceptBook(ctx, r.entries).valid
  }

  /** One round's run: it commits exactly on a valid accept, with that
      book's backend call as its only event; it is abandoned exactly when
      the first round's response is none of accept, cancel and close;
      otherwise its events are missing-information messages. */
  lemma BookStepFacts(r: BookRound, ctx: BookContext, first: bool)
    ensures var st := BookStep(r, ctx, first);
            (st.outcome == Committed <==> BookCommits(r, ctx)) &&
            (st.outcome == Committed ==> st.events == [BookWrite(ctx, AcceptBook(ctx, r.entries).book)]) &&
            (st.outcome != Committed ==> forall j :: 0 <= j < |st.events| ==> st.events[j] == MissingInformation) &&
            (st.outcome == Abandoned <==> first && r.response !in {Accept, Cancel, DeleteEvent})
  {
  }

  /** Every event of an address book run but a commit's backend call, which
      comes last, is a missing-information message. */
  lemma {:induction false} BookRunMessages(rounds: seq<BookRound>, ctx: BookContext, first: bool)
    ensures var run := BookRun(rounds, ctx, first);
            (run.outcome == Committed ==> run.events != []) &&
            forall j :: 0 <= j < |run.events| ==>
              run.events[j] == MissingInformation || (run.outcome == Committed && j == |run.events| - 1)
    decreases |rounds|
  {
    if rounds != [] {
      var st := BookStep(rounds[0], ctx, first);
      BookStepFacts(rounds[0], ctx, first);
      if st.outcome == Open {
        BookRunMessages(rounds[1..], ctx, false);
        var rest := BookRun(rounds[1..], ctx, false);
        var all := st.events + rest.events;
        assert BookRun(rounds, ctx, first) == Run(rest.outcome, all);
        forall j | 0 <= j < |all|
          ensures all[j] == MissingInformation || (rest.outcome == Committed && j == |all| - 1)
        {
          if j < |st.events| {
            assert all[j] == st.events[j];
          } else {
            assert all[j] == rest.events[j - |st.events|];
          }
        }
      }
    }
  }

  /** A committing address book run ends with the backend call for the book
      of one of its valid accepts. */
  lemma {:induction false} BookCommitHasSource(rounds: seq<BookRound>, ctx: BookContext, first: bool)
    ensures var run := BookRun(rounds, ctx, first);
            run.outcome == Committed ==>
              run.events != [] &&
              exists k :: 0 <= k < |rounds| && BookCommits(rounds[k], ctx) &&
                LastEvent(run.events) == BookWrite(ctx, AcceptBook(ctx, rounds[k].entries).book)
    decreases |rounds|
  {
    if rounds != [] {
      var st := BookStep(rounds[0], ctx, first);
      BookStepFacts(rounds[0], ctx, first);
      if st.outcome == Open {
        BookCommitHasSource(rounds[1..], ctx, false);
        var rest := BookRun(rounds[1..], ctx, false);
        if rest.outcome == Committed {
          var k :| 0 <= k < |rounds[1..]| && BookCommits(rounds[1..][k], ctx) &&
                   LastEvent(rest.events) == BookWrite(ctx, AcceptBook(ctx, rounds[1..][k].entries).book);
          assert rounds[k + 1] == rounds[1..][k];
          assert LastEvent(st.events + rest.events) == LastEvent(rest.events);
        }
      } else if st.outcome == Committed {
        assert BookCommits(rounds[0], ctx);
      }
    }
  }

  /** The address book dialog is abandoned only by an unexpected response
      to its very first round, and is open only while no round commits or
      closes it. */
  lemma {:induction false} BookRunEnds(rounds: seq<BookRound>, ctx: BookContext, first: bool)
    ensures var run := BookRun(rounds, ctx, first);
            (run.outcome == Abandoned <==> first && rounds != [] && rounds[0].response !in {Accept, Cancel, DeleteEvent}) &&
            (run.outcome == Open ==>
               forall k :: 0 <= k < |rounds| ==> !BookCommits(rounds[k], ctx) && rounds[k].response !in {Cancel, DeleteEvent})
    decreases |rounds|
  {
    if rounds != [] {
      BookStepFacts(rounds[0], ctx, first);
      BookRunEnds(rounds[1..], ctx, false);
      assert forall k :: 1 <= k < |rounds| ==> rounds[k] == rounds[1..][k - 1];
    }
  }

  /** What a valid accept does to the window: when the backend call
      succeeds, an edited book's rows are updated and a new book gets a row
      and an empty notebook page, which a local book's contacts then fill. */
  method CommitBook(w: Window.AddressbookWindow, ctx: BookContext, addc: Book,
                    modifyOk: Book -> bool, addOk: Book -> bool, isLocal: Book -> bool, backend: Backend)
    modifies w
    ensures ctx.addb.Some? ==>
              if modifyOk(addc)
              then w.remote == Window.Modified(old(w.remote), addc) && w.local == Window.Modified(old(w.local), addc) &&
                   w.pages == old(w.pages)
              else w.remote == old(w.remote) && w.local == old(w.local) && w.pages == old(w.pages)
    ensures ctx.addb.None? ==>
              var row := Window.RowOf(addc, |old(w.pages)|);
              if addOk(addc)
              then w.remote == (if isLocal(addc) then old(w.remote) else old(w.remote) + [row]) &&
                   w.local == (if isLocal(addc) then old(w.local) + [row] else old(w.local)) &&
                   w.pages == (if isLocal(addc)
                               then Window.Refreshed(old(w.pages) + [Window.Page([], None)], Window.PageIn(w.remote, w.local, addc.aid),
                                                     backend(Window.AllContactsQuery(addc)).contacts, None)
                               else old(w.pages) + [Window.Page([], None)])
              else w.remote == old(w.remote) && w.local == old(w.local) && w.pages == old(w.pages)
  {
    if ctx.addb.Some? {
      if modifyOk(addc) {
        w.ModifyAddressbook(Some(addc));
      }
    } else {
      if addOk(addc) {
        w.AddAddressbook(Some(addc), isLocal(addc), backend);
      }
    }
  }

  /** The do-while loop of gm_addressbook_window_edit_addressbook_dialog_run:
      a valid accept asks the backend to modify or add the book and, when
      the backend succeeds, updates the window's rows; Cancel or a close
      ends it; an invalid accept shows an error and runs the dialog again. */
  method RunAddressbookDialog(w: Window.AddressbookWindow, ctx: BookContext,
                              modifyOk: Book -> bool, addOk: Book -> bool, isLocal: Book -> bool,
                              backend: Backend, rounds: seq<BookRound>)
    returns (outcome: Outcome, events: seq<Event>)
    modifies w
    ensures Run(outcome, events) == BookRun(rounds, ctx, true)
    ensures outcome == Committed ==> events != [] && (LastEvent(events).AddressbookAdded? || LastEvent(events).AddressbookModified?)
    ensures outcome != Committed ==> w.remote == old(w.remote) && w.local == old(w.local) && w.pages == old(w.pages)
    ensures outcome == Committed && ctx.addb.Some? ==>
              var b := LastEvent(events).book;
              if modifyOk(b)
              then w.remote == Window.Modified(old(w.remote), b) && w.local == Window.Modified(old(w.local), b) &&
                   w.pages == old(w.pages)
              else w.remote == old(w.remote) && w.local == old(w.local) && w.pages == old(w.pages)
    ensures outcome == Committed && ctx.addb.None? ==>
              var b := LastEvent(events).book;
              var row := Window.RowOf(b, |old(w.pages)|);
              if addOk(b)
              then w.remote == (if isLocal(b) then old(w.remote) else old(w.remote) + [row]) &&
                   w.local == (if isLocal(b) then old(w.local) + [row] else old(w.local)) &&
                   w.pages == (if isLocal(b)
                               then Window.Refreshed(old(w.pages) + [Window.Page([], None)], Window.PageIn(w.remote, w.local, b.aid),
                                                     backend(Window.AllContactsQuery(b)).contacts, None)
                               else old(w.pages) + [Window.Page([], None)])
              else w.remote == old(w.remote) && w.local == old(w.local) && w.pages == old(w.pages)
  {
    var valid := true;
    var i := 0;
    outcome, events := Abandoned, [];
    while true
      invariant 0 <= i <= |rounds|
      invariant valid <==> i == 0
      invariant outcome == Abandoned
      invariant BookRun(rounds, ctx, true) == Then(events, BookRun(rounds[i..], ctx, i == 0))
      invariant w.remote == old(w.remote) && w.local == old(w.local) && w.pages == old(w.pages)
      decreases |rounds| - i
    {
      if i == |rounds| {
        assert rounds[i..] == [];
        outcome := Open;
        break;
      }
      var r := rounds[i];
      BookRunUnfold(rounds, i, ctx, i == 0);
      var step: seq<Event> := [];
      var result := Open;
      match r.response {
        case Accept =>
          var a := AcceptBook(ctx, r.entries);
          valid := a.valid;
          if valid {
            var addc := a.book;
            step := [BookWrite(ctx, addc)];
            CommitBook(w, ctx, addc, modifyOk, addOk, isLocal, backend);
            result := Committed;
          } else {
            step := [MissingInformation];
          }
        case Cancel =>
          valid := true;
          result := Cancelled;
        case DeleteEvent =>
          valid := true;
          result := Cancelled;
        case _ =>
          if valid {
            result := Abandoned;
          }
      }
      Advance(BookRun(rounds, ctx, true), events, BookRun(rounds[i..], ctx, i == 0), BookRun(rounds[i + 1..], ctx, false),
              !valid, result, step);
      events := events + step;
      i := i + 1;

      if valid {
        outcome := result;
        break;
      }
    }
  }
}
