# Dit: contribution window, home lists and sign-in nonce

Dit is an iOS todo tracker that borrows the look of a version-control
contribution graph: every todo completed on a day is a "commit" for that day.
This project models, in Dafny, the three pieces of plain logic inside the
app's view controllers and proves properties of them.

- **Profile** (`profile.dfy`): the profile screen's 35-day contribution
  window. The remote document store is a list of documents; its query
  (`userId`, `isDone == true`, `updatedAt >= origin`) is the filter `Query`;
  the callback's counting loop is `Tally`, and building the list of cells is
  `BuildWindow`. `FetchData` composes them with the two early exits (no
  signed-in user, no snapshot) that leave the old window on screen. The
  callback never checks the upper bound of the slot it increments, so a
  completed todo dated on or after tomorrow makes it trap; the model returns
  `Crashed` for that case, and `FetchDataWindow` says exactly when it happens.
- **Home** (`home.dfy`, with `text.dfy` for whitespace trimming): the home
  screen's two lists, open todos (section 0) and todos committed today
  (section 1), as a state record with pure transitions for add, commit,
  reset, delete and the rebuild from the on-device store. The store's answer
  to each write is an input: saved, a caught error (nothing changes), or a
  fetch by uuid that finds no record, after which reading `data[0]` traps.
- **Nonce** (`nonce.dfy`): the nonce for Sign in with Apple, drawn by
  rejection sampling over the 64-character alphabet spelled out in
  `LoginViewController` (which has
  no `W`), reading random bytes in rounds of 16; and the `%02x` hexadecimal
  spelling of the digest.
- **Time** (`time.dfy`): instants are integer seconds; the day of an instant
  is its floor division by 86400, which replaces the Gregorian calendar.

## Model

| member | source | states |
|---|---|---|
| `Time.StartOfDay` | Dit/Scenes/ProfileViewController.swift:125 | the start of an instant's day is the unique day boundary at or before it and less than a day away, and lies on the same day |
| `Time.DayOfBounds` | Dit/Scenes/HomeViewController.swift:256-258 | an instant lies on day `d` exactly when it is in the half-open interval from the start of day `d` to the start of day `d + 1` |
| `Profile.WindowOrigin` | Dit/Scenes/ProfileViewController.swift:118-125 | the origin is a day boundary 34 days before today's, so the window's 35 days end with today |
| `Profile.Query` | Dit/Scenes/ProfileViewController.swift:127-131 | a document is in the answer exactly when it is in the store, belongs to the user, is done, and is stamped no earlier than the origin |
| `Profile.Tally` | Dit/Scenes/ProfileViewController.swift:144-160 | the loop traps exactly when some stamped document falls outside the 35 slots; otherwise it yields 35 slots, slot `k` holding the number of documents whose day is `k` days after the origin's |
| `Profile.TallyConserves` | Dit/Scenes/ProfileViewController.swift:154-159 | each stamped document adds exactly one, so the slots sum to the number of stamped documents |
| `Profile.UnstampedIsSkipped` | Dit/Scenes/ProfileViewController.swift:149-152 | a document without an `updatedAt` timestamp changes no slot |
| `Profile.BuildWindow` | Dit/Scenes/ProfileViewController.swift:162-170 | 35 cells; cell `i` carries slot `i`'s count and lies on the `i`-th day after the origin, at a day boundary; dates strictly increase |
| `Profile.FetchData` | Dit/Scenes/ProfileViewController.swift:117-140 | without a signed-in user or without a snapshot the screen keeps its previous window |
| `Profile.QuerySlotCount` | Dit/Scenes/ProfileViewController.swift:127-159 | slot `k` of the query's answer counts exactly the user's completed todos last updated on day origin + `k`: the query's lower bound loses nothing inside the window |
| `Profile.QueryIndexable` | Dit/Scenes/ProfileViewController.swift:130-159 | no document of the answer traps exactly when none of the user's completed todos since the origin is stamped on or after the start of tomorrow |
| `Profile.FetchDataWindow` | Dit/Scenes/ProfileViewController.swift:117-172 | with a user and a snapshot the refresh traps iff a completed todo is dated on or after tomorrow; otherwise the window is 35 day-boundary cells from 34 days ago to today, increasing, each holding the user's completed todos of that day |
| `Profile.FetchDataTotal` | Dit/Scenes/ProfileViewController.swift:144-172 | the window's commits add up to the number of documents the query returned |
| `Profile.TomorrowTraps` | Dit/Scenes/ProfileViewController.swift:155-159 | a single completed todo stamped at the first instant of tomorrow makes the refresh trap |
| `Text.Trim` | Dit/Scenes/HomeViewController.swift:63-64 | the trimmed text is a slice of the input with only whitespace cut from both ends, neither starts nor ends with whitespace, and is empty exactly when the input is all whitespace |
| `Home.Add` | Dit/Scenes/HomeViewController.swift:62-91 | missing or all-whitespace text, or a failed save, changes nothing; otherwise exactly one open todo with the trimmed text, created and updated now, is appended to section 0, and section 1 is untouched |
| `Home.Commit` | Dit/Scenes/HomeViewController.swift:105-132 | a caught store error changes nothing, a missing record traps, and a save moves the row from section 0 to the end of section 1 marked done and updated now |
| `Home.Reset` | Dit/Scenes/HomeViewController.swift:136-162 | a caught store error changes nothing, a missing record traps, and a save moves the row from section 1 to the end of section 0 marked open and updated now |
| `Home.EditingStyleFor` | Dit/Scenes/HomeViewController.swift:170-176 | rows are deletable exactly in section 0 |
| `Home.Delete` | Dit/Scenes/HomeViewController.swift:178-199 | outside section 0, or on a caught store error, nothing changes; a missing record traps; a successful delete removes exactly that row of section 0 and leaves section 1 alone |
| `Home.KeptIndices` | Dit/Scenes/HomeViewController.swift:263-297 | the positions of the records a fetch returns and the conversion keeps, strictly increasing, holding exactly the positions whose record has every attribute and satisfies the fetch predicate |
| `Home.Collect` | Dit/Scenes/HomeViewController.swift:267-277 | one todo per kept record, in store order: the list is as long as the kept positions and its `k`-th todo is the conversion of the `k`-th kept record, so equal records give repeated rows |
| `Home.CollectMembers` | Dit/Scenes/HomeViewController.swift:267-277 | a todo is in a rebuilt list exactly when some stored record has every attribute, satisfies the fetch predicate and converts to it |
| `Home.FetchTodos` | Dit/Scenes/HomeViewController.swift:255-300 | a failing fetch traps; otherwise section 0 is the conversion of the complete open records and section 1 of the complete records done today, each one row per record in store order, and the badge is the number of complete open records |
| `Home.FetchTodosMembers` | Dit/Scenes/HomeViewController.swift:263-297 | after a rebuild section 0 holds exactly the complete records not done and section 1 exactly the complete done records updated in the half-open interval [start of today, start of tomorrow), so both sections are valid |
| `Home.RebuildKeepsDuplicates` | Dit/Scenes/HomeViewController.swift:267-277 | two identical complete open records give two rows in section 0 and a badge of two |
| `Home.DoneTodayIsSameDay` | Dit/Scenes/HomeViewController.swift:279-283 | the half-open today filter keeps a done record exactly when it was last updated on today's day |
| `Home.NumberOfRows` | Dit/Scenes/HomeViewController.swift:201-210 | a section never shows more rows than there are todos on screen, and a section other than 0 and 1 shows none |
| `Home.Badge` | Dit/Scenes/HomeViewController.swift:322-325 | the icon badge is the row count of section 0, at most the number of todos on screen |
| `Home.RowCounts` | Dit/Scenes/HomeViewController.swift:201-225 | section 0 shows as many rows as there are open todos and section 1 as many as committed todos, so the two add up to all todos on screen; other sections have no rows, and the badge is section 0's row count |
| `Home.AddPreserves` | Dit/Scenes/HomeViewController.swift:88-90 | adding keeps section 0 open and section 1 done, grows the screen by at most one todo, and raises the badge by one exactly when non-blank text was saved |
| `Home.CommitPreserves` | Dit/Scenes/HomeViewController.swift:128-130 | committing keeps both sections valid and the total and the bag of uuids unchanged; on save section 0 and the badge shrink by one and section 1 grows by one |
| `Home.ResetPreserves` | Dit/Scenes/HomeViewController.swift:158-160 | resetting keeps both sections valid and the total and the bag of uuids unchanged; on save section 1 shrinks by one and section 0 and the badge grow by one |
| `Home.DeletePreserves` | Dit/Scenes/HomeViewController.swift:196-197 | deleting keeps both sections valid, never touches section 1, and on success removes exactly one uuid and lowers the badge by one |
| `Home.CommitThenReset` | Dit/Scenes/HomeViewController.swift:108-159 | committing a todo and resetting it again restores section 1 and leaves the same todo open at the end of section 0, stamped with the reset time |
| `Nonce.AcceptedMembers` | Dit/Scenes/LoginViewController.swift:64-72 | a byte below the alphabet's size (64, the charset's count) is kept exactly when it occurs in the stream; no other byte is ever kept |
| `Nonce.KeepsAll` | Dit/Scenes/LoginViewController.swift:69-72 | every byte of a stream is kept exactly when all of them are below the alphabet's size |
| `Nonce.KeepsNone` | Dit/Scenes/LoginViewController.swift:69-72 | no byte of a stream is kept exactly when none of them is below the alphabet's size |
| `Nonce.AcceptedPrefix` | Dit/Scenes/LoginViewController.swift:52-74 | reading further into the stream only extends the kept bytes: what a prefix keeps is a prefix of what the whole stream keeps |
| `Nonce.KeepStep` | Dit/Scenes/LoginViewController.swift:64-72 | one byte further, the picked bytes grow by that byte exactly when it is below the alphabet's size and fewer than the requested length were picked; otherwise they stay the same |
| `Nonce.DrawRound` | Dit/Scenes/LoginViewController.swift:53-73 | after a round of 16 bytes the nonce spells the first kept bytes so far, cut at the requested length, and the remaining length is what is still missing |
| `Nonce.RandomNonceString` | Dit/Scenes/LoginViewController.swift:46-76 | for a positive length, the nonce has exactly that many characters, all from the alphabet, and spells the first kept bytes of the stream in order; rounds stop as soon as it is complete; it fails exactly when the whole rounds of the stream keep too few bytes |
| `Nonce.HexString` | Dit/Scenes/LoginViewController.swift:82-84 | two lower-case hexadecimal digits per byte, high nibble first, twice the input's length |
| `Nonce.ParseHexString` | Dit/Scenes/LoginViewController.swift:82-84 | the hexadecimal spelling of a digest parses back to that digest |
| `Nonce.HexStringParse` | Dit/Scenes/LoginViewController.swift:82-84 | every lower-case hexadecimal string of even length is the spelling of the bytes it parses to |

## Left out

- Views, layout, navigation, toasts, table reloading, widget timeline reloads and notification authorization: presentation only.
- The Gregorian calendar, time zones and daylight saving time: a day is a fixed 86400 seconds and the day of an instant is floor division. Date formatting for the toast (`dateToSting`) and the section header titles are string formatting and are not modelled.
- The remote document store and its query engine: the store is a list of documents and the query is a filter; order of documents and the `userId` stored on them are inputs. A store error that still delivers a snapshot behaves like a delivered snapshot, as the profile screen's callback does.
- The on-device store: each write's outcome is an input (`StoreReply`); the records the store keeps, and an insertion that stays in the store's context after a failed save, are not modelled. The order of fetched records is taken as the input order.
- `Profile.FetchData`: its own contract states only the unchanged case; the counting, dating and trap behaviour are stated by `Profile.FetchDataWindow`.
- `Home.NumberOfRows`: its own contract is a bound (no more rows than todos on screen, none outside sections 0 and 1); the exact count of each section is stated by `Home.RowCounts`.
- `Text.Trim`: the whitespace set is the Unicode White_Space property; the platform's character classification is not modelled beyond it.
- `Nonce.RandomNonceString`: the random source is a finite byte stream, so the generator can run out of bytes (`None`); the platform's source never runs out, and its failure (a fatal error) is not modelled. The default length of 32 used by the sign-in flow is an ordinary argument here.
- SHA-256 itself: the digest is an input to `Nonce.HexString`.
- Sign in with Apple, the credential exchange and the user document written at first sign-in: calls into platform and remote services.
- The home-screen widget, the colour constants and the contribution cell: they draw fixed cells and read no counts.
- Contribution/Contribution.swift is not part of this model.
