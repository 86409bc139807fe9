/**
 * The address book window's own state: the tree of address books, whose two
 * category rows "Remote" (row 0) and "Local" (row 1) each hold one row per
 * address book, and the notebook, which holds one contact list and status bar
 * per address book. A row records the number of its book's notebook page.
 */
module Window {
  import opened Wrappers
  import opened Contacts
  import Presentation

  /** An address book row: its id, name, URL, call attribute and notebook page. */
  datatype Row = Row(
    aid: Option<string>,
    name: Option<string>,
    url: Option<string>,
    callAttribute: Option<string>,
    page: nat)

  function RowOf(b: Book, page: nat): Row {
    Row(b.aid, b.name, b.url, b.callAttribute, page)
  }

  datatype StatusIcon = AvailableIcon | DoNotDisturbIcon | OfflineIcon

  /** A contact row of a notebook page; a column the source never sets stays NULL. */
  datatype ContactRow = ContactRow(
    fullname: Option<string>,
    comment: Option<string>,
    location: Option<string>,
    email: Option<string>,
    url: Option<string>,
    software: Option<string>,
    categories: Option<string>,
    speeddial: Option<string>,
    uid: Option<string>,
    icon: StatusIcon,
    bold: bool)

  /** A notebook page: the contacts listed and the message on top of its status bar. */
  datatype Page = Page(contacts: seq<ContactRow>, status: Option<string>)

  /** The row gm_aw_update_addressbook appends for a contact: every text field
      copied, and one of three presence icons, drawn in bold when the contact
      is available or busy. */
  function ContactRowOf(c: Contact): (r: ContactRow)
    ensures r.fullname == c.fullname && r.url == c.url && r.speeddial == c.speeddial && r.uid == c.uid
    ensures r.email == c.email && r.categories == c.categories && r.comment == c.comment
    ensures r.location == c.location && r.software == c.software
    ensures r.bold <==> r.icon != OfflineIcon
    ensures r.icon == AvailableIcon <==> c.state == Available
    ensures r.icon == DoNotDisturbIcon <==> c.state == Busy
  {
    var icon := match c.state
      case Available => AvailableIcon
      case Busy => DoNotDisturbIcon
      case Other => OfflineIcon;
    ContactRow(c.fullname, c.comment, c.location, c.email, c.url, c.software,
               c.categories, c.speeddial, c.uid, icon, c.state != Other)
  }

  function ContactRows(cs: seq<Contact>): (rows: seq<ContactRow>)
    ensures |rows| == |cs|
    ensures forall i :: 0 <= i < |cs| ==> rows[i] == ContactRowOf(cs[i])
  {
    seq(|cs|, i requires 0 <= i < |cs| => ContactRowOf(cs[i]))
  }

  /** The row test of the scans: `test && aid && !strcmp (test, aid)`. */
  predicate Matches(r: Row, aid: Option<string>) {
    SameText(r.aid, aid)
  }

  /** The index of the first row whose id is aid, or -1. */
  function FirstMatch(rows: seq<Row>, aid: Option<string>): (k: int)
    ensures -1 <= k < |rows|
    ensures k == -1 <==> forall i :: 0 <= i < |rows| ==> !Matches(rows[i], aid)
    ensures k >= 0 ==> Matches(rows[k], aid) && forall i :: 0 <= i < k ==> !Matches(rows[i], aid)
  {
    if rows == [] then -1
    else if Matches(rows[0], aid) then 0
    else
      var k := FirstMatch(rows[1..], aid);
      if k == -1 then -1 else k + 1
  }

  /** The notebook page of the book with id aid: that of its first row under
      "Remote", else of its first row under "Local", else -1. */
  function PageIn(remote: seq<Row>, local: seq<Row>, aid: Option<string>): int {
    var k := FirstMatch(remote, aid);
    if k >= 0 then remote[k].page
    else
      var j := FirstMatch(local, aid);
      if j >= 0 then local[j].page else -1
  }

  /** A category after gm_aw_modify_addressbook: its first row for b's id
      takes b's id, URL, name and call attribute and keeps its page. */
  function Modified(rows: seq<Row>, b: Book): seq<Row> {
    var k := FirstMatch(rows, b.aid);
    if k < 0 then rows else rows[k := RowOf(b, rows[k].page)]
  }

  /** A category after gm_aw_delete_addressbook: its first row for aid is gone. */
  function Removed(rows: seq<Row>, aid: Option<string>): seq<Row> {
    var k := FirstMatch(rows, aid);
    if k < 0 then rows else rows[..k] + rows[k + 1..]
  }

  /** gtk_notebook_remove_page: a page number past the end removes nothing. */
  function DropPage(pages: seq<Page>, p: nat): seq<Page> {
    if p < |pages| then pages[..p] + pages[p + 1..] else pages
  }

  /** The notebook after the page of the first row of `rows` for aid is removed. */
  function DropMatchPage(pages: seq<Page>, rows: seq<Row>, aid: Option<string>): seq<Page> {
    var k := FirstMatch(rows, aid);
    if k < 0 then pages else DropPage(pages, rows[k].page)
  }

  /** The notebook after a page is refilled: page p (if it exists) lists the
      contacts in order, and shows msg on its status bar when msg is given. */
  function Refreshed(pages: seq<Page>, p: int, contacts: seq<Contact>, msg: Option<string>): seq<Page> {
    if 0 <= p < |pages| then
      pages[p := Page(ContactRows(contacts), if msg.Some? then msg else pages[p].status)]
    else pages
  }

  /** The lookup that fills the page of a local book: all its contacts. */
  function AllContactsQuery(b: Book): Query {
    Query(Some(b), false, None, None, None, None, None)
  }

  lemma FirstMatchAppend(rows: seq<Row>, r: Row, aid: Option<string>)
    ensures FirstMatch(rows + [r], aid) ==
            if FirstMatch(rows, aid) >= 0 then FirstMatch(rows, aid)
            else if Matches(r, aid) then |rows| else -1
  {
    var all := rows + [r];
    var k := FirstMatch(rows, aid);
    var k2 := FirstMatch(all, aid);
    assert forall i :: 0 <= i < |rows| ==> all[i] == rows[i];
    if k >= 0 {
      assert Matches(all[k], aid);
      assert k2 <= k;
      assert k2 >= 0 && k2 < |rows| ==> !Matches(all[k2], aid) || k2 >= k;
    } else if Matches(r, aid) {
      assert all[|rows|] == r;
    } else {
      assert all[|rows|] == r;
    }
  }

  /** A book added under an id no row carries yet is found again at the
      page it was given, whichever category it went to. */
  lemma LookupAfterAdd(remote: seq<Row>, local: seq<Row>, b: Book, page: nat, isLocal: bool)
    requires b.aid.Some?
    requires PageIn(remote, local, b.aid) == -1
    ensures var row := RowOf(b, page);
            PageIn(if isLocal then remote else remote + [row],
                   if isLocal then local + [row] else local, b.aid) == page
  {
    var row := RowOf(b, page);
    FirstMatchAppend(remote, row, b.aid);
    FirstMatchAppend(local, row, b.aid);
  }

  /** One category after a modify: the same rows in the same places with the
      same pages; the first row for the book's id, and no other, now carries
      the book's id, name, URL and call attribute, and is still the first
      row for that id. */
  lemma ModifyRow(rows: seq<Row>, b: Book)
    ensures var m := Modified(rows, b);
            var k := FirstMatch(rows, b.aid);
            |m| == |rows| &&
            (forall i :: 0 <= i < |rows| ==> m[i].page == rows[i].page) &&
            (forall i :: 0 <= i < |rows| && i != k ==> m[i] == rows[i]) &&
            FirstMatch(m, b.aid) == k &&
            (k >= 0 ==> m[k] == RowOf(b, rows[k].page))
  {
    var k := FirstMatch(rows, b.aid);
    if k >= 0 {
      var m := Modified(rows, b);
      assert Matches(m[k], b.aid);
      assert forall i :: 0 <= i < k ==> m[i] == rows[i];
    }
  }

  /** Modifying a book keeps every row in place and every page number: the
      same page is found for its id, the row found in each category now
      carries the book's name, URL and call attribute, and every other row
      is unchanged. */
  lemma ModifyKeepsLookup(remote: seq<Row>, local: seq<Row>, b: Book)
    ensures |Modified(remote, b)| == |remote| && |Modified(local, b)| == |local|
    ensures forall i :: 0 <= i < |remote| ==> Modified(remote, b)[i].page == remote[i].page
    ensures forall i :: 0 <= i < |local| ==> Modified(local, b)[i].page == local[i].page
    ensures PageIn(Modified(remote, b), Modified(local, b), b.aid) == PageIn(remote, local, b.aid)
    ensures var k := FirstMatch(Modified(remote, b), b.aid);
            k >= 0 ==> Modified(remote, b)[k] == RowOf(b, remote[k].page)
    ensures var k := FirstMatch(Modified(local, b), b.aid);
            k >= 0 ==> Modified(local, b)[k] == RowOf(b, local[k].page)
    ensures var k := FirstMatch(remote, b.aid);
            forall i :: 0 <= i < |remote| && i != k ==> Modified(remote, b)[i] == remote[i]
    ensures var k := FirstMatch(local, b.aid);
            forall i :: 0 <= i < |local| && i != k ==> Modified(local, b)[i] == local[i]
  {
    ModifyRow(remote, b);
    ModifyRow(local, b);
  }

  /** At most one row of a category has a given id. */
  predicate UniqueIds(rows: seq<Row>) {
    forall i, j :: 0 <= i < j < |rows| && rows[i].aid.Some? ==> rows[i].aid != rows[j].aid
  }

  /** Deleting a book removes exactly one row from each category that had
      one for its id and leaves the others in order; when ids are unique,
      the book is no longer found. */
  lemma DeleteForgets(rows: seq<Row>, aid: Option<string>)
    ensures |Removed(rows, aid)| == if FirstMatch(rows, aid) >= 0 then |rows| - 1 else |rows|
    ensures forall r <- Removed(rows, aid) :: r in rows
    ensures UniqueIds(rows) ==> FirstMatch(Removed(rows, aid), aid) == -1
  {
    var k := FirstMatch(rows, aid);
    if k >= 0 && UniqueIds(rows) {
      var rest := Removed(rows, aid);
      forall i | 0 <= i < |rest| ensures !Matches(rest[i], aid) {
        if i < k {
          assert rest[i] == rows[i];
        } else {
          assert rest[i] == rows[i + 1];
          assert rows[k].aid != rows[i + 1].aid;
        }
      }
    }
  }

  /** Refilling a page touches no other page; the refilled page lists one
      row per contact, in order. */
  lemma RefreshTouchesOnePage(pages: seq<Page>, p: int, contacts: seq<Contact>, msg: Option<string>)
    ensures |Refreshed(pages, p, contacts, msg)| == |pages|
    ensures forall q :: 0 <= q < |pages| && q != p ==> Refreshed(pages, p, contacts, msg)[q] == pages[q]
    ensures 0 <= p < |pages| ==>
              |Refreshed(pages, p, contacts, msg)[p].contacts| == |contacts| &&
              (forall i :: 0 <= i < |contacts| ==>
                 Refreshed(pages, p, contacts, msg)[p].contacts[i] == ContactRowOf(contacts[i])) &&
              (msg.Some? ==> Refreshed(pages, p, contacts, msg)[p].status == msg)
  {
  }

  /** The row scan of the source: the first index whose row has id aid, or -1. */
  method FindRow(rows: seq<Row>, aid: Option<string>) returns (k: int)
    ensures k == FirstMatch(rows, aid)
  {
    k := 0;
    while k < |rows|
      invariant 0 <= k <= |rows|
      invariant forall i :: 0 <= i < k ==> !Matches(rows[i], aid)
    {
      if Matches(rows[k], aid) {
        return;
      }
      k := k + 1;
    }
    k := -1;
  }

  /** One category's scan in gm_aw_delete_addressbook: the first row for
      aid is removed and so is the notebook page it records. */
  method RemoveRow(rows: seq<Row>, pages: seq<Page>, aid: Option<string>) returns (left: seq<Row>, kept: seq<Page>)
    ensures left == Removed(rows, aid) && kept == DropMatchPage(pages, rows, aid)
  {
    left, kept := rows, pages;
    var k := FindRow(rows, aid);
    if k >= 0 {
      var p := rows[k].page;
      if p < |pages| {
        kept := pages[..p] + pages[p + 1..];
      }
      left := rows[..k] + rows[k + 1..];
    }
  }

  class AddressbookWindow {
    /** The rows under "Remote" (tree path "0") and "Local" (tree path "1"). */
    var remote: seq<Row>
    var local: seq<Row>
    /** The notebook pages, by page number. */
    var pages: seq<Page>

    constructor ()
      ensures remote == [] && local == [] && pages == []
    {
      remote, local, pages := [], [], [];
    }

    /** gm_aw_get_notebook_page */
    method GetNotebookPage(book: Option<Book>) returns (p: int)
      ensures p == if book.Some? then PageIn(remote, local, book.value.aid) else -1
    {
      if book.None? {
        return -1;
      }
      var aid := book.value.aid;
      for i := 0 to 2
        invariant i >= 1 ==> FirstMatch(remote, aid) == -1
        invariant i >= 2 ==> FirstMatch(local, aid) == -1
      {
        var rows := if i == 0 then remote else local;
        var k := FindRow(rows, aid);
        if k >= 0 {
          return rows[k].page;
        }
      }
      return -1;
    }

    /** gm_aw_add_addressbook: a row for the book, under "Local" or "Remote"
        as the backend classifies it, pointing at a new empty notebook page;
        the page of a local book is then filled with all its contacts. */
    method AddAddressbook(book: Option<Book>, isLocal: bool, backend: Backend)
      modifies this
      ensures book.None? ==> remote == old(remote) && local == old(local) && pages == old(pages)
      ensures book.Some? ==>
        var row := RowOf(book.value, |old(pages)|);
        remote == (if isLocal then old(remote) else old(remote) + [row]) &&
        local == (if isLocal then old(local) + [row] else old(local)) &&
        pages == (if isLocal
                  then Refreshed(old(pages) + [Page([], None)], PageIn(remote, local, book.value.aid),
                                 backend(AllContactsQuery(book.value)).contacts, None)
                  else old(pages) + [Page([], None)])
    {
      if book.None? {
        return;
      }
      var b := book.value;
      var row := RowOf(b, |pages|);
      if isLocal {
        local := local + [row];
      } else {
        remote := remote + [row];
      }
      pages := pages + [Page([], None)];
      if isLocal {
        UpdateAddressbook(book, backend(AllContactsQuery(b)).contacts, None);
      }
    }

    /** gm_aw_modify_addressbook: in each category, the first row for the
        book's id is updated in place. */
    method ModifyAddressbook(book: Option<Book>)
      modifies this
      ensures pages == old(pages)
      ensures book.None? ==> remote == old(remote) && local == old(local)
      ensures book.Some? ==> remote == Modified(old(remote), book.value) && local == Modified(old(local), book.value)
    {
      if book.None? {
        return;
      }
      var b := book.value;
      for i := 0 to 2
        invariant pages == old(pages)
        invariant remote == if i == 0 then old(remote) else Modified(old(remote), b)
        invariant local == if i < 2 then old(local) else Modified(old(local), b)
      {
        var rows := if i == 0 then remote else local;
        var k := FindRow(rows, b.aid);
        if k >= 0 {
          var updated := rows[k := RowOf(b, rows[k].page)];
          if i == 0 {
            remote := updated;
          } else {
            local := updated;
          }
        }
      }
    }

    /** gm_aw_delete_addressbook: in each category, the first row for the
        book's id is removed together with the notebook page it records. */
    method DeleteAddressbook(book: Option<Book>)
      modifies this
      ensures book.None? ==> remote == old(remote) && local == old(local) && pages == old(pages)
      ensures book.Some? ==>
        var aid := book.value.aid;
        remote == Removed(old(remote), aid) && local == Removed(old(local), aid) &&
        pages == DropMatchPage(DropMatchPage(old(pages), old(remote), aid), old(local), aid)
    {
      if book.None? {
        return;
      }
      var aid := book.value.aid;
      for i := 0 to 2
        invariant remote == if i == 0 then old(remote) else Removed(old(remote), aid)
        invariant local == if i < 2 then old(local) else Removed(old(local), aid)
        invariant pages == if i == 0 then old(pages)
                           else if i == 1 then DropMatchPage(old(pages), old(remote), aid)
                           else DropMatchPage(DropMatchPage(old(pages), old(remote), aid), old(local), aid)
      {
        var rows := if i == 0 then remote else local;
        var left;
        left, pages := RemoveRow(rows, pages, aid);
        if i == 0 {
          remote := left;
        } else {
          local := left;
        }
      }
    }

    /** gm_aw_update_addressbook: the book's notebook page, when there is one,
        is cleared and gets one row per contact, in order; a message, when
        given, replaces the top of its status bar. */
    method UpdateAddressbook(book: Option<Book>, contacts: seq<Contact>, msg: Option<string>)
      modifies this
      ensures remote == old(remote) && local == old(local)
      ensures pages == if book.None? then old(pages)
                       else Refreshed(old(pages), PageIn(remote, local, book.value.aid), contacts, msg)
    {
      if book.None? {
        return;
      }
      var p := GetNotebookPage(book);
      if p == -1 || p >= |pages| {
        return;
      }
      pages := pages[p := pages[p].(contacts := [])];
      var i := 0;
      while i < |contacts|
        invariant 0 <= i <= |contacts|
        invariant remote == old(remote) && local == old(local)
        invariant pages == old(pages)[p := old(pages)[p].(contacts := ContactRows(contacts[..i]))]
      {
        pages := pages[p := pages[p].(contacts := pages[p].contacts + [ContactRowOf(contacts[i])])];
        assert contacts[..i + 1] == contacts[..i] + [contacts[i]];
        assert ContactRows(contacts[..i + 1]) == ContactRows(contacts[..i]) + [ContactRowOf(contacts[i])];
        i := i + 1;
      }
      assert contacts[..i] == contacts;
      if msg.Some? {
        pages := pages[p := pages[p].(status := msg)];
      }
    }

    /** SearchThread::Main without its threading: when a book is selected,
        look it up with the page's filter and refill its page with the
        results and the status message. */
    method Search(selected: Option<Book>, active: int, entry: string, backend: Backend)
      modifies this
      ensures remote == old(remote) && local == old(local)
      ensures selected.None? ==> pages == old(pages)
      ensures selected.Some? ==>
        var a := backend(Presentation.SearchQuery(selected.value, Presentation.SearchFilterOf(active, entry)));
        pages == Refreshed(old(pages), PageIn(remote, local, selected.value.aid), a.contacts,
                           Some(Presentation.StatusText(Presentation.StatusFor(a.count, |a.contacts|, selected.value.name))))
    {
      var filter := Presentation.SearchFilterOf(active, entry);
      if selected.None? {
        return;
      }
      var book := selected.value;
      var answer := backend(Presentation.SearchQuery(book, filter));
      var msg := Presentation.StatusText(Presentation.StatusFor(answer.count, |answer.contacts|, book.name));
      UpdateAddressbook(selected, answer.contacts, Some(msg));
    }
  }
}
