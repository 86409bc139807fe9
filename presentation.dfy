/**
 * The presentation decisions of the address book window that do not depend on
 * the toolkit: the search filter, the status bar message of a search, the
 * sensitivity of the contact menu items, the choice of contact popup menu, and
 * which rows of the address book tree may be selected.
 */
module Presentation {
  import opened Wrappers
  import opened Contacts

  // ---------------------------------------------------------------- search filter

  /** The search option menu index and the entry text, as read from a page;
      an empty entry gives no filter (gm_aw_get_search_filter). */
  datatype SearchFilter = SearchFilter(option: int, text: Option<string>)

  function SearchFilterOf(active: int, entry: string): (f: SearchFilter)
    ensures f.option == active
    ensures f.text.None? <==> entry == ""
    ensures f.text.Some? ==> f.text.value == entry
  {
    SearchFilter(active, if entry != "" then Some(entry) else None)
  }

  /** The lookup a search sends: a partial match in the selected book, the
      filter text on the full name (option 0), on the URL (option 1), or on
      both the categories and the location (option 2). */
  function SearchQuery(book: Book, f: SearchFilter): (q: Query)
    ensures q.book == Some(book) && q.partial && q.speeddial.None? && q.location == q.categories
    ensures q.fullname.Some? ==> f.option == 0 && q.fullname == f.text
    ensures q.url.Some? ==> f.option == 1 && q.url == f.text
    ensures q.categories.Some? ==> f.option == 2 && q.categories == f.text
    ensures f.text.Some? && 0 <= f.option <= 2 ==> q.fullname.Some? || q.url.Some? || q.categories.Some?
  {
    Query(Some(book), true,
          if f.option == 0 then f.text else None,
          if f.option == 1 then f.text else None,
          if f.option == 2 then f.text else None,
          if f.option == 2 then f.text else None,
          None)
  }

  /** Which fields a search filters on: none for an empty entry or an option
      outside 0..2, otherwise exactly the fields the option names, each with
      the entry text; the speed dial is never a search field. */
  lemma SearchFiltersTheChosenFields(book: Book, active: int, entry: string)
    ensures var q := SearchQuery(book, SearchFilterOf(active, entry));
            q.book == Some(book) && q.partial && q.speeddial.None? &&
            (q.fullname.Some? <==> entry != "" && active == 0) &&
            (q.url.Some? <==> entry != "" && active == 1) &&
            (q.categories.Some? <==> entry != "" && active == 2) &&
            (q.location == q.categories) &&
            (forall t :: t in [q.fullname, q.url, q.categories, q.location] && t.Some? ==> t.value == entry)
  {
  }

  // ---------------------------------------------------------------- status message

  /** The three status bar messages a search can end with. */
  datatype Status =
    | FetchError(book: Option<string>)
    | FoundAll(count: int, book: Option<string>)
    | FoundOfTotal(found: nat, book: Option<string>, total: int)

  /** The message for a search of book `book` whose backend reported `count`
      (-1 on error) and returned `found` contacts. */
  function StatusFor(count: int, found: nat, book: Option<string>): (s: Status)
    ensures s.book == book
    ensures s.FetchError? <==> count == -1
    ensures s.FoundAll? <==> count != -1 && count == found
    ensures s.FoundAll? ==> s.count == found
    ensures s.FoundOfTotal? ==> s.found == found && s.total == count && count != found
  {
    if count == -1 then FetchError(book)
    else if count == found then FoundAll(count, book)
    else FoundOfTotal(found, book, count)
  }

  function DigitChar(d: nat): char
    requires d < 10
  {
    ('0' as int + d) as char
  }

  /** The decimal digits of n, as printf's %d writes them. */
  function Decimal(n: nat): (s: string)
    ensures |s| >= 1
    ensures forall c <- s :: '0' <= c <= '9'
  {
    if n < 10 then [DigitChar(n)] else Decimal(n / 10) + [DigitChar(n % 10)]
  }

  /** The number a string of decimal digits denotes. */
  function DigitsValue(s: string): int {
    if s == [] then 0 else DigitsValue(s[..|s| - 1]) * 10 + (s[|s| - 1] as int - '0' as int)
  }

  /** %d writes the number itself: its digits read back as n, without a
      leading zero. */
  lemma {:induction false} DecimalValue(n: nat)
    ensures DigitsValue(Decimal(n)) == n
    ensures |Decimal(n)| == 1 || Decimal(n)[0] != '0'
  {
    var s := Decimal(n);
    if n < 10 {
      assert s[..0] == [];
    } else {
      DecimalValue(n / 10);
      assert s[..|s| - 1] == Decimal(n / 10);
      assert s[0] == Decimal(n / 10)[0];
    }
  }

  function IntText(i: int): string {
    if i < 0 then "-" + Decimal(-i) else Decimal(i)
  }

  /** Whether t ends with e. */
  predicate Ends(t: string, e: string) {
    |e| <= |t| && t[|t| - |e|..] == e
  }

  /** printf's %s of a possibly NULL string, as the GNU C library writes it. */
  function Text(s: Option<string>): string {
    if s.Some? then s.value else "(null)"
  }

  /** "Found <n> user" or "Found <n> users", the plural chosen by `count`. */
  function FoundHead(n: int, count: int): string {
    "Found " + IntText(n) + (if count == 1 then " user" else " users")
  }

  lemma {:induction false} Joined(h: string, e: string)
    ensures h <= h + e && Ends(h + e, e)
  {
    assert (h + e)[..|h|] == h;
    assert (h + e)[|h|..] == e;
  }

  /** The English form of a message: the untranslated strings, with the
      singular chosen, as ngettext does without a catalog, when the backend
      count is exactly 1. */
  function StatusText(s: Status): (t: string)
    ensures s.FetchError? ==> t == "Error while fetching users list from " + Text(s.book)
    ensures s.FoundAll? ==>
              var e := " in " + Text(s.book);
              FoundHead(s.count, s.count) <= t && Ends(t, e) && |t| == |FoundHead(s.count, s.count)| + |e|
    ensures s.FoundOfTotal? ==>
              var e := " in " + Text(s.book) + " for a total of " + IntText(s.total) + " users";
              FoundHead(s.found, s.total) <= t && Ends(t, e) && |t| == |FoundHead(s.found, s.total)| + |e|
  {
    match s
    case FetchError(b) => "Error while fetching users list from " + Text(b)
    case FoundAll(n, b) =>
      var e := " in " + Text(b);
      Joined(FoundHead(n, n), e);
      FoundHead(n, n) + e
    case FoundOfTotal(k, b, n) =>
      var e := " in " + Text(b) + " for a total of " + IntText(n) + " users";
      Joined(FoundHead(k, n), e);
      FoundHead(k, n) + e
  }

  /** A successful search's message reports the number of contacts
      returned: after "Found " come the digits of that number, followed by a
      space. */
  lemma {:induction false} StatusReportsFound(count: int, found: nat, book: Option<string>)
    requires count != -1
    ensures var t := StatusText(StatusFor(count, found, book));
            var d := Decimal(found);
            |t| > 6 + |d| && t[..6] == "Found " && DigitsValue(t[6..6 + |d|]) == found && t[6 + |d|] == ' '
  {
    var t := StatusText(StatusFor(count, found, book));
    var d := Decimal(found);
    var head := FoundHead(found, count);
    HeadDigits(found, count);
    assert head <= t;
    PrefixSlices(head, t, 6 + |d|);
    DecimalValue(found);
  }

  lemma PrefixSlices(head: string, t: string, n: nat)
    requires head <= t && 6 <= n < |head|
    ensures |t| > n && t[..6] == head[..6] && t[6..n] == head[6..n] && t[n] == head[n]
  {
  }

  /** Where the digits sit in the head of the message. */
  lemma {:induction false} HeadDigits(found: nat, count: int)
    ensures var head := FoundHead(found, count);
            var d := Decimal(found);
            |head| == 6 + |d| + (if count == 1 then 5 else 6) &&
            head[..6] == "Found " && head[6..6 + |d|] == d && head[6 + |d|] == ' '
  {
    var d := Decimal(found);
    assert found >= 0;
    assert IntText(found) == d;
  }

  // ---------------------------------------------------------------- menu sensitivity

  /** Sensitivity of the window's contact menu items. */
  datatype Sensitivity = Sensitivity(
    call: bool, delete: bool, add: bool, properties: bool,
    message: bool, copy: bool, emailwrite: bool)

  /** gm_aw_update_menu_sensitivity: None when a local and a remote contact are
      both said to be selected (the source then leaves the menu as it is).
      `isSip` is whether a contact is selected and its URL is a SIP URL. */
  function MenuSensitivity(editable: bool, localSelected: bool, remoteSelected: bool, isSip: bool): (r: Option<Sensitivity>)
    ensures r.None? <==> localSelected && remoteSelected
  {
    if localSelected && remoteSelected then None
    else
      var any := remoteSelected || localSelected;
      var own := localSelected || (!remoteSelected && editable);
      Some(Sensitivity(any, own, remoteSelected, own, remoteSelected || (localSelected && isSip), any, any))
  }

  /** The table the sensitivity follows: a local contact can be called,
      edited and deleted but not added; a remote one can be called, added and
      messaged but not edited; with no contact, only an editable book allows
      delete and properties; and a message needs a remote or a SIP contact. */
  lemma MenuSensitivityTable(editable: bool, localSelected: bool, remoteSelected: bool, isSip: bool)
    requires !(localSelected && remoteSelected)
    ensures var s := MenuSensitivity(editable, localSelected, remoteSelected, isSip).value;
            s.call == s.copy == s.emailwrite == (localSelected || remoteSelected) &&
            s.delete == s.properties &&
            (localSelected ==> s.delete && !s.add && (s.message <==> isSip)) &&
            (remoteSelected ==> !s.delete && s.add && s.message) &&
            (!localSelected && !remoteSelected ==> !s.call && !s.add && !s.message && (s.delete <==> editable))
  {
  }

  // ---------------------------------------------------------------- contact popup menu

  datatype MenuItem =
    CallContact | SendMessage | CopyUrl | WriteEmail | Separator
    | Properties | Delete | NewContact | AddToAddressbook

  /** The popup menus gm_aw_contact_menu_new can build. */
  datatype ContactMenu = NoMenu | NewContactOnly | LocalMenu | SipLocalMenu | RemoteMenu | SipRemoteMenu

  /** The variant for a click: whether a book is selected and the backend
      says it is local, whether a contact is under the mouse and its URL is
      a SIP URL. */
  function ContactMenuFor(hasBook: bool, bookIsLocal: bool, hasContact: bool, contactIsSip: bool): (m: ContactMenu)
    ensures m == NoMenu <==> !(hasBook && bookIsLocal) && !(hasContact && hasBook)
    ensures m == NewContactOnly <==> hasBook && bookIsLocal && !hasContact
    ensures m in {LocalMenu, SipLocalMenu} <==> hasContact && hasBook && bookIsLocal
    ensures m in {RemoteMenu, SipRemoteMenu} <==> hasContact && hasBook && !bookIsLocal
    ensures m in {SipLocalMenu, SipRemoteMenu} <==> hasContact && hasBook && contactIsSip
  {
    var local := hasBook && bookIsLocal;
    var sip := hasContact && contactIsSip;
    if hasContact && hasBook then
      if local then (if sip then SipLocalMenu else LocalMenu)
      else (if sip then SipRemoteMenu else RemoteMenu)
    else if local then NewContactOnly
    else NoMenu
  }

  /** The entries of each menu, in order. */
  function Items(m: ContactMenu): (items: seq<MenuItem>)
    ensures items == [] <==> m == NoMenu
    ensures items != [] ==> items[0] != Separator && items[|items| - 1] != Separator
    ensures NewContact in items <==> m in {NewContactOnly, LocalMenu, SipLocalMenu}
    ensures (Properties in items <==> m in {LocalMenu, SipLocalMenu}) && (Delete in items <==> m in {LocalMenu, SipLocalMenu})
    ensures AddToAddressbook in items <==> m in {RemoteMenu, SipRemoteMenu}
    ensures SendMessage in items <==> m in {SipLocalMenu, SipRemoteMenu}
    ensures CallContact in items <==> m !in {NoMenu, NewContactOnly}
  {
    match m
    case NoMenu => []
    case NewContactOnly => [NewContact]
    case LocalMenu =>
      [CallContact, CopyUrl, WriteEmail, Separator, Properties, Separator, Delete, Separator, NewContact]
    case SipLocalMenu =>
      [CallContact, SendMessage, CopyUrl, WriteEmail, Separator, Properties, Separator, Delete, Separator, NewContact]
    case RemoteMenu =>
      [CallContact, CopyUrl, WriteEmail, Separator, AddToAddressbook]
    case SipRemoteMenu =>
      [CallContact, SendMessage, CopyUrl, WriteEmail, Separator, AddToAddressbook]
  }

  /** What the popup offers: no menu at all without a local book unless a
      contact of some book was clicked; a new-contact entry exactly in a local
      book; edit and delete only for a contact of a local book; adding to the
      address book only for a contact of a remote book; a message only for a
      SIP contact. */
  lemma ContactMenuOffers(hasBook: bool, bookIsLocal: bool, hasContact: bool, contactIsSip: bool)
    ensures var m := ContactMenuFor(hasBook, bookIsLocal, hasContact, contactIsSip);
            var items := Items(m);
            (m == NoMenu <==> !(hasBook && bookIsLocal) && !(hasContact && hasBook)) &&
            (NewContact in items <==> hasBook && bookIsLocal) &&
            (Properties in items <==> hasContact && hasBook && bookIsLocal) &&
            (Delete in items <==> hasContact && hasBook && bookIsLocal) &&
            (AddToAddressbook in items <==> hasContact && hasBook && !bookIsLocal) &&
            (SendMessage in items <==> hasContact && hasBook && contactIsSip) &&
            (CallContact in items <==> hasContact && hasBook)
  {
  }

  // ---------------------------------------------------------------- tree selection

  /** aw_tree_selection_function_cb: a row of the address book tree, given by
      its path, may be selected unless it is at depth 0 or 1, i.e. unless it
      is one of the "Remote"/"Local" category rows. */
  function Selectable(path: seq<nat>): (r: bool)
    ensures r <==> |path| >= 2
  {
    if |path| <= 1 then false else true
  }

  /** The category rows are never selectable; every address book row under
      them is. */
  lemma OnlyBookRowsSelectable(category: nat, book: nat)
    ensures !Selectable([category]) && !Selectable([])
    ensures Selectable([category, book])
  {
  }
}
