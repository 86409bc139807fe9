# Ekiga address book window — a Dafny model

This project models the decision logic of Ekiga's address book window,
`src/gui/addressbook.cpp`. It covers:

- **Contact collision check** (`gm_aw_check_contact_collision`). Before a contact is stored, the
  directory backend is searched for another contact with the same speed dial. If none exists, it
  is searched for one with the same full name or URL. Only fields that are new or changed are
  checked. A speed-dial clash is an error the user cannot override. A name or URL clash is a
  warning the user can override with "Yes".
- **Contact dialog** (`gm_addressbook_window_edit_contact_dialog_run`). The dialog runs until the
  user cancels or closes it, or until a valid entry passes the collision check. An entry is valid
  when its full name or URL is set. An edited contact keeps its uid. A new contact goes to the
  local book chosen in the menu. When no book is chosen, a new "Personal" book is created.
- **Address book dialog** (`gm_addressbook_window_edit_addressbook_dialog_run`). A remote book's
  URL is parsed into its entries. The URL `prefix://host:port/base??scope` is rebuilt on OK. The
  dialog checks that the entries it needs are filled, then asks the backend to add or modify the
  book.
- **Presentation rules.** These cover:
  - the search filter and the lookup it starts (`SearchThread::Main`);
  - the status bar message;
  - the sensitivity of the menu items;
  - which contact popup menu is shown;
  - which rows of the address book tree can be selected.
- **Window state** (`AddressbookWindow`). It holds two categories of address book rows, "Remote"
  and "Local", plus one notebook page of contacts per book. The rows are scanned, added, modified
  and deleted in place, and the pages are refilled.

The backend (`gnomemeeting_addressbook_*`) is code this model cannot see. It is a parameter:
`Backend` is a total function from a lookup (`Query`) to its contacts and their count.

Other parts are also parameters. The user's answers in modal dialogs are a `Response`; the
predicate `Offers` says which answers a dialog with given buttons can return. A dialog run is a
finite script of rounds, one per press of a dialog button. If the script ends before the dialog
closes, the outcome is `Open`.

The modules are:

- `Wrappers`: Option.
- `Contacts`: records and the backend.
- `Collision`: the collision check.
- `Presentation`: filter, status, menus and selection.
- `BookUrl`: building and parsing address book URLs.
- `Window`: the window's rows and pages.
- `Dialogs`: the two dialogs.

## Model

| member | source | states |
|---|---|---|
| Collision.Checked | src/gui/addressbook.cpp:752-777 | A field is checked exactly when the new contact has it non-empty, and there is no old contact, or the old one lacks it, or the old value differs |
| Collision.CheckContactCollision | src/gui/addressbook.cpp:723-874 | The two-phase lookup loop: its answer, the dialog it shows and the lookups it makes equal the `Decide` specification |
| Collision.NullContactCollides | src/gui/addressbook.cpp:746 | A NULL new contact counts as a collision, with no lookup and no dialog |
| Collision.UnchangedKeysNeverCollide | src/gui/addressbook.cpp:752-777 | An edit that keeps full name, URL and speed dial checks nothing, makes no lookup and never collides |
| Collision.SpeedDialMatchIsFatal | src/gui/addressbook.cpp:782-866 | If another contact has the same speed dial, the error dialog (OK only) shows that contact, and the result is a collision whatever the user answers |
| Collision.IdentityMatchIsOverridable | src/gui/addressbook.cpp:800-869 | If the speed dial is free but a contact shares the name or URL, a Yes/No warning shows it, and it is a collision unless the user answers Yes |
| Collision.LookupsUseCheckedFieldsOnly | src/gui/addressbook.cpp:782-813 | Every lookup made is the speed-dial lookup or the name/URL lookup, an exact lookup over every book filtered by at least one field; the speed-dial lookup is made exactly when speed dial is checked, and filters on the new speed dial; the name/URL lookup is made exactly when full name or URL is checked and the speed dial was free, and filters on the full name exactly when it is checked and on the URL exactly when it is checked, with the new values |
| Collision.NoMatchNoCollision | src/gui/addressbook.cpp:782-874 | When every lookup comes back empty, there is no collision and no dialog |
| Presentation.SearchFilterOf | src/gui/addressbook.cpp:700-720 | The filter carries the active search option, and its text is NULL exactly when the search entry is empty |
| Presentation.SearchFiltersTheChosenFields | src/gui/addressbook.cpp:2016-2024 | The search is a partial lookup in the selected book: option 0 filters the full name, option 1 the URL, option 2 both categories and location, and speed dial is never a filter |
| Presentation.SearchQuery | src/gui/addressbook.cpp:2016-2024 | The lookup is partial and limited to the selected book, never filters on speed dial, filters the location exactly as the categories, sets the full name only for option 0, the URL only for option 1 and the categories only for option 2, each to the filter text, and filters something whenever there is text and the option is 0, 1 or 2 |
| Presentation.StatusFor | src/gui/addressbook.cpp:2026-2040 | A count of -1 is a fetch error; a count equal to the number of contacts returned is "found all"; otherwise the message gives both numbers |
| Presentation.Decimal | src/gui/addressbook.cpp:2031-2040 | The decimal text of a count is non-empty and made of digits only |
| Presentation.DecimalValue | src/gui/addressbook.cpp:2031-2040 | `%d` writes the number itself: its digits read back as the count, with no leading zero |
| Presentation.StatusText | src/gui/addressbook.cpp:2026-2040 | A fetch error reads "Error while fetching users list from " and the book's name; a search that got everything starts "Found <count> user" (plural "users" unless the count is 1) and ends " in <book>"; a partial one starts "Found <found> user(s)", the plural chosen by the total, and ends " in <book> for a total of <total> users"; a NULL book is printed "(null)" |
| Presentation.StatusReportsFound | src/gui/addressbook.cpp:2026-2040 | After a successful search, the message's digits following "Found " read back as the number of contacts returned, and are followed by a space |
| Presentation.MenuSensitivity | src/gui/addressbook.cpp:1443-1478 | The menu is left unchanged exactly when both a local and a remote book are reported selected |
| Presentation.MenuSensitivityTable | src/gui/addressbook.cpp:1443-1478 | With at most one kind selected, call, copy and e-mail writing are on exactly when a contact is selected; delete and properties agree; a local contact allows delete but not add, and message only for a SIP URL; a remote contact allows add and message but not delete; with nothing selected, call, add and message are off and delete follows whether the book is editable |
| Presentation.ContactMenuOffers | src/gui/addressbook.cpp:1529-1711 | No menu exactly when there is neither a local book nor a clicked contact in a book; "New contact" exactly in a local book; properties and delete exactly for a contact of a local book; "Add to address book" exactly for a contact of a remote book; the message item exactly for a SIP contact; call for every clicked contact |
| Presentation.ContactMenuFor | src/gui/addressbook.cpp:1695-1709 | No menu exactly when there is neither a local book nor a clicked contact in a book; the new-contact-only menu exactly for a local book with no contact; a local contact menu exactly for a contact of a local book, a remote one for a contact of a remote book, and the SIP variant exactly for a SIP contact |
| Presentation.Items | src/gui/addressbook.cpp:1605-1690 | Only the absent menu is empty, and no menu starts or ends with a separator; "New contact", properties and delete exactly in the local menus; "Add to address book" exactly in the remote ones; the message item exactly in the SIP ones; call in every contact menu |
| Presentation.Selectable | src/gui/addressbook.cpp:1747-1757 | A tree row can be selected exactly when its path has depth at least 2, that is, it is a book and not a category |
| Presentation.OnlyBookRowsSelectable | src/gui/addressbook.cpp:1747-1757 | Category rows and the root cannot be selected; every book row under a category can |
| BookUrl.ScopeIndex | src/gui/addressbook.cpp:3455-3463 | The scope menu starts on entry 1 (One Level) exactly when the URL's scope is "one", and on entry 0 (Subtree) otherwise |
| BookUrl.ScopeName | src/gui/addressbook.cpp:3552-3555 | The scope written is "sub" exactly for the first scope entry and "one" otherwise; both are clean URL parts |
| BookUrl.NewPrefix | src/gui/addressbook.cpp:3560-3563 | A new book's scheme is "ldap" exactly for type entry 1 and "ils" otherwise; either is a clean part other than "file" |
| BookUrl.BuildUrl | src/gui/addressbook.cpp:3571-3572 | The URL holds the five parts and exactly seven more characters, all of them ':', '/' or '?' |
| BookUrl.ReplaceAll | src/gui/addressbook.cpp:3270-3272 | Replacing a character with a space keeps the length and changes exactly the positions holding that character |
| BookUrl.SkipSpace | src/gui/addressbook.cpp:3274-3277 | sscanf's skipping of blanks leaves a string that is empty or starts with a non-blank |
| BookUrl.TokenUpTo | src/gui/addressbook.cpp:3274-3277 | A `%255s` word is no longer than its input, and is non-empty when the input starts with a non-blank (a width of at least 4 bytes fits any character) |
| BookUrl.TokenFitsWidth | src/gui/addressbook.cpp:3274-3277 | A conversion never takes more UTF-8 bytes than its width, so a longer word is split across conversions |
| BookUrl.Scan | src/gui/addressbook.cpp:3274-3277 | The scan reads at most five words |
| BookUrl.ScanWordsFit | src/gui/addressbook.cpp:3274-3277 | Every word stored fits 255 UTF-8 bytes, holds no whitespace, and only characters of the scanned text |
| BookUrl.ParseUrl | src/gui/addressbook.cpp:3267-3277 | A NULL URL or one starting with "file:" gives five empty parts; otherwise every part, read or left empty, is at most 255 bytes and free of blanks, ':', '/' and '?'; that the parts of a built URL are its own words is `ParseBuiltUrl` |
| BookUrl.ReplaceKeepsOthers | src/gui/addressbook.cpp:3270-3272 | Blanking a character a string does not contain leaves it unchanged |
| BookUrl.BlankClean | src/gui/addressbook.cpp:3270-3272 | A clean URL part is unchanged by blanking |
| BookUrl.BlankBuiltUrl | src/gui/addressbook.cpp:3270-3272 | A built URL blanks to its parts separated by 3, 1, 1 and 2 spaces |
| BookUrl.TokenOfWord | src/gui/addressbook.cpp:3274-3277 | A `%255s` read of a clean word followed by a blank or the end yields exactly that word |
| BookUrl.SkipSpaces | src/gui/addressbook.cpp:3274-3277 | Skipping blanks before a clean word lands on the word |
| BookUrl.ScanWord | src/gui/addressbook.cpp:3274-3277 | The scan reads a clean word and continues after the blanks that follow it |
| BookUrl.ScanLastWord | src/gui/addressbook.cpp:3274-3277 | The scan of a single clean word reads that word |
| BookUrl.NotFileUrl | src/gui/addressbook.cpp:3267-3269 | A URL whose prefix is clean and is not "file" does not start with "file:" |
| BookUrl.ScanTail2 | src/gui/addressbook.cpp:3274-3277 | Steps of the five-word scan: base and scope are read back |
| BookUrl.ScanTail3 | src/gui/addressbook.cpp:3274-3277 | Steps of the five-word scan: port, base and scope are read back |
| BookUrl.ScanTail4 | src/gui/addressbook.cpp:3274-3277 | Steps of the five-word scan: host, port, base and scope are read back |
| BookUrl.ScanFiveWords | src/gui/addressbook.cpp:3274-3277 | The blanked built URL scans to its five parts |
| BookUrl.ParseBuiltUrl | src/gui/addressbook.cpp:3267-3280 | Round trip: parsing the URL that OK builds gives back prefix, host, port, base and scope, when each part is non-empty, at most 255 bytes in UTF-8 and free of blanks, ':', '/' and '?', and the scheme is not "file" |
| BookUrl.ScopeRoundTrip | src/gui/addressbook.cpp:3455-3463 | The scope menu entry chosen gives a scope that the next edit shows on the same entry (0 for "sub", 1 otherwise) |
| BookUrl.EditRewritesScope | src/gui/addressbook.cpp:3455-3463 | A scope read from a URL survives an edit only if it is "one"; any other scope is written back as "sub" |
| Window.ContactRowOf | src/gui/addressbook.cpp:1367-1427 | A contact's row copies every text field, and maps state to three icons: available, do not disturb, offline; the first two are bold |
| Window.ContactRows | src/gui/addressbook.cpp:1367-1432 | The page lists one row per contact, in order |
| Window.FirstMatch | src/gui/addressbook.cpp:1221-1246 | The scan's result is -1 exactly when no row has the id; otherwise it is the first index whose row has the id, and both row and id are non-NULL |
| Window.FirstMatchAppend | src/gui/addressbook.cpp:926-944 | Appending a row leaves an existing match in place, and makes the new row the match when there was none |
| Window.LookupAfterAdd | src/gui/addressbook.cpp:926-944 | After a book with a new id is added under either category, gm_aw_get_notebook_page finds the page recorded for it |
| Window.ModifyRow | src/gui/addressbook.cpp:1262-1313 | Modifying one category keeps its length, every row's page and every other row; the first row with the book's id stays the first match and takes the book's name, URL and call attribute |
| Window.ModifyKeepsLookup | src/gui/addressbook.cpp:1262-1313 | Modifying a book keeps every row's page and the page found for the book; in each category the first row with the id takes the book's name, URL and call attribute, and every other row is unchanged |
| Window.DeleteForgets | src/gui/addressbook.cpp:1221-1246 | Deleting removes one row exactly when one matches and adds none; when ids are unique, the id is no longer found |
| Window.RefreshTouchesOnePage | src/gui/addressbook.cpp:1317-1439 | Refilling a page keeps the number of pages and every other page; the page lists the contacts and shows the message when one is given |
| Window.FindRow | src/gui/addressbook.cpp:1227-1245 | The do-while row scan returns `FirstMatch` |
| Window.RemoveRow | src/gui/addressbook.cpp:1227-1245 | One category's delete scan removes the first matching row and the notebook page it records |
| Window.AddressbookWindow.GetNotebookPage | src/gui/addressbook.cpp:1482-1525 | The page is taken from the first matching row under "Remote", then under "Local", or is -1 |
| Window.AddressbookWindow.AddAddressbook | src/gui/addressbook.cpp:877-1198 | The book gets a row in its category recording the next page number, and a new empty page; a local book's page is filled with all its contacts |
| Window.AddressbookWindow.ModifyAddressbook | src/gui/addressbook.cpp:1262-1313 | In both categories, the first row with the book's id is updated in place; pages are untouched |
| Window.AddressbookWindow.DeleteAddressbook | src/gui/addressbook.cpp:1202-1259 | In both categories, the first row with the book's id is removed along with the page it records |
| Window.AddressbookWindow.UpdateAddressbook | src/gui/addressbook.cpp:1317-1439 | The book's page, if any, is cleared and refilled with the contacts in order; the message, if given, replaces the status bar's top |
| Window.AddressbookWindow.Search | src/gui/addressbook.cpp:1987-2056 | With a book selected, the search lookup's results and status message refill the book's page; otherwise nothing changes |
| Dialogs.ContactStepFacts | src/gui/addressbook.cpp:3001-3124 | One round commits exactly on a valid accept without collision, with the write last; only Cancel or a close cancels; no round abandons the dialog |
| Dialogs.ContactStep | src/gui/addressbook.cpp:3001-3124 | A round never abandons the dialog; it is cancelled exactly by Cancel or a close; it commits only on an accept with a full name or URL; any other response leaves the dialog open with nothing done |
| Dialogs.NewContact | src/gui/addressbook.cpp:3009-3026 | The contact carries the typed full name, URL, speed dial, e-mail and categories, keeps the old uid when edited and has none otherwise; it has a non-empty full name or URL exactly when the entries are valid |
| Dialogs.Target | src/gui/addressbook.cpp:3021-3044 | An edit writes to the selected book; a new contact goes to the local book chosen in the menu, or, when none is, to a new book named "Personal" |
| Dialogs.Created | src/gui/addressbook.cpp:3036-3043 | The "Personal" book is added, as the one event, exactly when a new contact has no local book chosen, and it is the book the contact is written to |
| Dialogs.ContactResponse | src/gui/addressbook.cpp:3001-3124 | The loop body for one response matches the round's specification; the collision flag is cleared only on paths that also set `valid` |
| Dialogs.RunContactDialog | src/gui/addressbook.cpp:2995-3128 | The `while (!valid)` loop, with `collision` true at every loop head, matches `ContactRun` |
| Dialogs.ContactRunNeverAbandoned | src/gui/addressbook.cpp:2995-3128 | A response other than accept, cancel or close never ends the contact dialog |
| Dialogs.ContactRunWritesOnce | src/gui/addressbook.cpp:3059-3065 | A contact is written at most once per run: only when the run commits, and only as its last event |
| Dialogs.ContactCommitHasSource | src/gui/addressbook.cpp:3005-3073 | A commit writes the contact of a round whose accept was valid and whose collision check was negative |
| Dialogs.ContactCancelHasSource | src/gui/addressbook.cpp:3118-3124 | A cancelled run had a Cancel or a close |
| Dialogs.ContactOpenIffNoExit | src/gui/addressbook.cpp:2995-3128 | The dialog stays open exactly while no round commits or closes it; missing information and collisions keep it open |
| Dialogs.ContactWriteShape | src/gui/addressbook.cpp:3010-3073 | The written contact has the typed full name, URL and speed dial, one of the first two non-empty; an edit keeps the old uid and modifies in the selected book; a new contact has no uid and is added |
| Dialogs.Advance | src/gui/addressbook.cpp:2995-3128 | One more loop round, as a fact about runs: the events so far and the round's own, then the round's outcome or the rest |
| Dialogs.ContactRunUnfold | src/gui/addressbook.cpp:2995-3128 | The run from round i is round i's run, continued by the rest when round i leaves the dialog open |
| Dialogs.AcceptedBookShape | src/gui/addressbook.cpp:3526-3566 | Valid exactly when the name is set and, for a remote book, host, port and base are set; a remote URL is prefix://host:port/base??scope with "sub" or "one"; a new book's prefix is "ldap" for type 1, else "ils"; an edited book keeps its id |
| Dialogs.InitialEntries | src/gui/addressbook.cpp:3322-3498 | A new book starts from empty entries with port "389", "rfc822mailbox", and the first type and scope entries; an edit shows the book's name (empty when it has none), the host, port and base parsed from its URL, its call attribute or "rfc822mailbox" when it has none, and scope entry 1 exactly for "one"; host, port and base are always plain |
| Dialogs.AcceptBook | src/gui/addressbook.cpp:3529-3572 | Valid exactly when the name is set and, for a remote book, host, port and base are; the book takes the name and call attribute; a local book takes the new book's URL; a remote book's URL parses back into its scheme, entries and scope when they are clean |
| Dialogs.UnchangedEditKeepsBook | src/gui/addressbook.cpp:3267-3566 | Accepting an edited remote book untouched stores it unchanged: its URL is parsed into the entries and rebuilt as it was, when prefix, host, port and base are non-empty, at most 255 UTF-8 bytes and free of blanks and separators, the scheme is not "file" and the scope is "sub" or "one" |
| Dialogs.BookRunUnfold | src/gui/addressbook.cpp:3520-3610 | The address book run from round i is round i's run, continued by the rest |
| Dialogs.BookStepFacts | src/gui/addressbook.cpp:3526-3608 | One round commits exactly on a valid accept, with that book's add or modify call; it abandons the dialog exactly on an unexpected response in the first round |
| Dialogs.BookStep | src/gui/addressbook.cpp:3526-3607 | A round has at most one event; it is cancelled exactly by Cancel or a close; it abandons the dialog exactly on an unexpected response while `valid` is still TRUE; it stays open only on an accept or a later round |
| Dialogs.BookRunMessages | src/gui/addressbook.cpp:3570-3590 | Every event but a commit's backend call, which comes last, is a missing-information message |
| Dialogs.BookCommitHasSource | src/gui/addressbook.cpp:3570-3582 | A commit ends with the add or modify call for the book of one of the valid accepts |
| Dialogs.BookRunEnds | src/gui/addressbook.cpp:3520-3610 | The dialog is abandoned only by an unexpected first response; it stays open only while no round commits and none is Cancel or a close |
| Dialogs.CommitBook | src/gui/addressbook.cpp:3570-3582 | When the backend call succeeds, an edited book's rows are updated; a new book gets a row in its category recording the next page and a new empty page, which for a local book is filled with all its contacts; otherwise the window is unchanged |
| Dialogs.RunAddressbookDialog | src/gui/addressbook.cpp:3520-3610 | The do-while loop, with `valid` first TRUE, matches `BookRun`; the window changes only on a commit: the edited book's rows are updated, or the new book gets its row and page, filled with its contacts when it is local |

## Left out

- GTK widget plumbing is not modelled. This covers tree stores, icons, cursors, dialog layout and
  the selection restore after a delete at src/gui/addressbook.cpp:1249-1257. Only the decisions
  and the data shown are modelled.
- The search thread's locking and its `gdk_threads_enter` calls are left out. `Search` runs as
  one step.
- The backend's matching, storage and uid and aid assignment are code this model cannot see. A
  `Backend` oracle stands for lookups. The success of add and modify calls is a parameter.
  `gm_addressbook_new`'s result is passed in as a `Book`.
- Whether a book is local, editable or SIP (`gnomemeeting_addressbook_is_local`, `…_is_editable`,
  the URL test for SIP) is an input.
- Translated text is not modelled. Messages are the untranslated English strings, and the plural
  is chosen by the English rule on the backend's count.
- Dialogs.RunContactDialog: the steps after a contact commit are not modelled. These are
  refreshing the book's page, the speed-dial menu and the URL histories (3067-3106). The window
  row added for a new "Personal" book is not modelled either. The run records the book's
  creation as an event instead.
- Dialogs.NewContact: a new contact's uid, comment, location and software are taken as NULL
  and its presence state as `Other`, since `gmcontact_new`'s defaults are not part of this
  model; the dialog sets none of these fields itself.
- BookUrl.TokenUpTo: widths are counted in UTF-8 bytes, but a character whose bytes straddle
  the 255-byte limit goes whole to the next word, whereas sscanf splits it between its bytes;
  a string of characters cannot hold half a character. The round trip is stated only for
  parts of at most 255 bytes, which no split touches.
- Dialogs.PersonalBook and Dialogs.AcceptBook: the book `gm_addressbook_new` returns (3037,
  3531) is one value per dialog, `freshBook` or `newBook`, where the source makes a new one on
  every accept round. Two "Personal" books created in one contact dialog therefore share an id
  in the model; no lemma relies on new books having distinct ids.
- Window.AddressbookWindow.DeleteAddressbook: like the source, this does not renumber the pages
  recorded in the remaining rows after a page is removed (1238-1239). No lemma claims those
  page numbers stay consistent after a delete.
- The address book statistics widget, the vCard conversion and drag and drop of contacts are not
  modelled.
- `gm_aw_addressbook_menu_new` and the popup menus' callbacks are not modelled. Only the choice
  of contact menu variant is.
