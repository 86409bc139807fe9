/**
 * The records the address book window exchanges with the directory backend:
 * contacts, address books, and the query the backend answers.
 */
module Contacts {
  import opened Wrappers

  /** The presence states the window distinguishes; every other state of the
      contact library is drawn as offline and falls into Other. */
  datatype State = Available | Busy | Other

  /** A directory entry. Every text field may be NULL in the source. */
  datatype Contact = Contact(
    uid: Option<string>,
    fullname: Option<string>,
    url: Option<string>,
    email: Option<string>,
    categories: Option<string>,
    speeddial: Option<string>,
    comment: Option<string>,
    location: Option<string>,
    software: Option<string>,
    state: State)

  /** An address book as the backend describes it. */
  datatype Book = Book(
    aid: Option<string>,
    name: Option<string>,
    url: Option<string>,
    callAttribute: Option<string>)

  /** The arguments of a directory lookup: the book (None: every book), whether
      partial matches are allowed, and one optional filter per field. */
  datatype Query = Query(
    book: Option<Book>,
    partial: bool,
    fullname: Option<string>,
    url: Option<string>,
    categories: Option<string>,
    location: Option<string>,
    speeddial: Option<string>)

  /** What a lookup returns: the contacts, and the total the backend reports
      (-1 when the lookup failed). */
  datatype Answer = Answer(contacts: seq<Contact>, count: int)

  /** The directory backend is not part of this model: it is an oracle. */
  type Backend = Query -> Answer

  /** A non-NULL, non-empty C string. */
  predicate Filled(s: Option<string>) {
    s.Some? && s.value != ""
  }

  /** The C test `a && b && !strcmp (a, b)`. */
  predicate SameText(a: Option<string>, b: Option<string>) {
    a.Some? && b.Some? && a.value == b.value
  }
}
