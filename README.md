# newbin content and moderation store

A model of the store behind newbin, a pastebin-style site. It holds users, pins (code snippets), comments, favourite edges and report guards. The same rules appear in two places, and both are modelled:

- **Backend handlers.** Five request handlers work on SQL tables:
  - `backend/pins` creates pins, looks one up (counting a view), lists them and soft-deletes them;
  - `backend/actions` handles reports, favourites and the has-reported check;
  - `backend/admin` runs the administrator's user search and the ban and verify switches;
  - `backend/auth` handles registration and login;
  - `backend/comments` lists and creates comments.

  The tables are the fields of one `Schema.Database` object: `seq`s of rows plus a set of report guards. Each handler is a method that updates only the fields it names in its `modifies` clause. Each method is proved against pure functions that say what a query returns or what a statement leaves in a table.
- **Older browser components.** These work on the browser's `localStorage`:
  - the pin detail view;
  - the feed;
  - the favourites page;
  - the sign-in form;
  - the two publish forms;
  - the plain-text page.

  Storage is the `Storage.LocalStorage` object. Its fields are the pin and comment arrays, the name-to-password map, the per-user favourite lists and the set of report guard keys that are set. Each component is a class whose fields are its state. Its event handlers are methods that update the component's fields and the storage fields they write.

Shared rules:
- A pin is hidden from lists once it has 10 reports.
- A comment is hidden once it has 5 reports.
- The administrator is the user named `Developer`.
- A deleted pin has its report counter set to 999.

Behaviour of the code worth knowing. Where it looks accidental it is still modelled as the code does it, and lemmas state the consequences:
- Registration marks the account verified when its name is `Developer`.
- A backend report counts even when the same address already reported (`ReportTwiceCountsTwice`).
- A pin lookup counts the view before checking for hiding, and ignores the private flag (`HiddenPinStillCountsView`, `LookupIgnoresPrivacy`).
- Comments are listed newest first, and the admin user search lists the newest accounts first.
- An admin action on an unknown user id still answers success (`UnknownTargetChangesNothing`, `AdminHandler.HandlePost`).
- Parsed tags keep duplicates (`ParseTagsComplete`, `DuplicatesKept`).
- A click in the feed writes back only the visible pins, so hidden pins are erased from storage (`ClickDropsHiddenPins`).
- Report guard keys of the browser components can collide when ids contain `_` (`UnderscoreIdsCollide`).

Ids of new rows and clock readings are parameters. The callers of the insert handlers guarantee that the id is unused, standing in for the table's serial key. Case-insensitive matching goes through ASCII lower-casing (`Text.Lower`). Trimming goes through a whitespace predicate (`Text.IsSpace`).

## Model

| member | source | states |
|---|---|---|
| Schema.FindUser | backend/pins/index.py:148-149 | the user with the id, if any exists; none exactly when no row has the id |
| Schema.IsAdmin | backend/pins/index.py:148-151 | a caller is the administrator only when a user row with the caller's id is named `Developer` |
| Schema.AttachAuthors | backend/pins/index.py:44-46 | each pin row, all of which have an author, joined with its author's name and verified flag, in order; the inner join that drops rows without an author is done by `PinsHandler.Matching`, `PinsHandler.LookupPin` and `ActionsHandler.FavoriteTargets` |
| Text.Trim | backend/auth/index.py:37-38 | the result is the input with its leading and trailing whitespace removed: it sits at some position of the input with only whitespace before and after it, is empty exactly when the input is all whitespace, and otherwise starts and ends with a non-space |
| Text.TrimIdempotent | backend/pins/index.py:99-100 | trimming twice is trimming once |
| Text.Lower | backend/pins/index.py:80 | an ASCII capital becomes its own lower-case letter (code point plus 32); every other character is kept |
| Text.LowerString | backend/pins/index.py:80 | every character lower-cased in place, same length |
| Text.ContainsIgnoreCase | backend/pins/index.py:80 | the case-insensitive search holds exactly when the lower-cased needle occurs at some position of the lower-cased text |
| Text.ContainsAt | backend/pins/index.py:80 | the substring search holds exactly when the needle occurs at some position |
| Text.EmptySearchMatchesAll | backend/pins/index.py:35 | the default empty search text matches every title |
| Text.Split | src/components/CreatePinNew.tsx:93-94 | the pieces number the separators plus one, hold no separator, and join back to the input |
| Text.DecimalString | src/components/CreatePin.tsx:73 | the rendering of a clock reading is a non-empty string of decimal digits |
| Text.DecimalRoundTrip | src/components/CreatePin.tsx:73 | the decimal form of a clock reading is all digits and reads back to the same number |
| Text.DecimalStringInjective | src/components/CreatePin.tsx:73 | different readings have different decimal forms |
| Sorting.SortBy | backend/pins/index.py:68-72 | the ordering is sorted by the rank and is a permutation of its input |
| Sorting.Take | backend/pins/index.py:82 | the first n rows: all of them when there are at most n, otherwise exactly n, as a prefix |
| Sorting.TakeIsTop | backend/pins/index.py:74-82 | taking from an ordered list keeps rows of its input, and a row left off ranks no better than any row taken |
| PinsHandler.ParseSort | backend/pins/index.py:68-72 | `oldest` and `views` pick their orders; every other sort text, including a missing one, picks newest first |
| PinsHandler.RankOrder | backend/pins/index.py:68-72 | a list sorted by the key's rank is in created-at descending, created-at ascending or views descending order |
| PinsHandler.Matching | backend/pins/index.py:74-85 | a pin matches iff it is not hidden, is public or the viewer's own, its title contains the search text ignoring case, and its author exists |
| PinsHandler.Viewer | backend/pins/index.py:85 | the `user_id` parameter, or 0 when it is missing |
| PinsHandler.ListedPage | backend/pins/index.py:74-85 | matching pins sorted by the requested order: all of them when at most 100 match, otherwise exactly 100 |
| PinsHandler.ListedPageIsTop | backend/pins/index.py:74-85 | the page is drawn from the matching pins, and a matching pin left off by the limit comes no earlier in the order than any pin on the page |
| PinsHandler.ListPins | backend/pins/index.py:74-95 | the page's pins with their author columns: all matching pins when at most 100 match, otherwise exactly 100; each not hidden, public or owned by the viewer (0 when no user id is given), matching the search, in the requested order |
| PinsHandler.ListPinsIsTop | backend/pins/index.py:74-95 | the listed pins are matching pins, and a matching pin left off by the limit comes no earlier in the order than any listed pin |
| PinsHandler.ListPinsComplete | backend/pins/index.py:74-86 | when at most 100 pins match, every matching pin is listed |
| PinsHandler.ListedPageComplete | backend/pins/index.py:74-86 | when at most 100 pins match, every matching pin is on the page |
| PinsHandler.IncrementViews | backend/pins/index.py:37-41 | the pins with the id gain exactly one view; every other field and pin is unchanged |
| PinsHandler.LookupPin | backend/pins/index.py:43-59 | a found pin is stored, has the id, is not hidden and carries its author's name and verified flag; not found exactly when every pin with the id is hidden or has no author |
| PinsHandler.LookupIgnoresPrivacy | backend/pins/index.py:43-48 | a private pin that is not hidden is returned with its author to any caller |
| PinsHandler.HiddenPinStillCountsView | backend/pins/index.py:37-59 | opening a hidden pin still adds a view and then answers not found |
| PinsHandler.SetReports | backend/pins/index.py:152 | the pins with the id get the given report count; nothing else changes |
| PinsHandler.DeletedPinIsHidden | backend/pins/index.py:151-153 | after the delete, lookup finds nothing and no listing holds the pin |
| PinsHandler.AcceptsNewPin | backend/pins/index.py:105 | a new pin is accepted exactly when neither title nor content is blank and an author is given |
| PinsHandler.NewPin | backend/pins/index.py:99-119 | the inserted row has the trimmed title and content, the author, the private flag, the tags, no views and no reports |
| PinsHandler.HandleGet | backend/pins/index.py:30-95 | with an id, views are bumped first and the answer is the lookup on the new table; without one, nothing is written and the answer is the listing |
| PinsHandler.FreshIdKeepsPinIdsUnique | backend/pins/index.py:114-118 | inserting a row under an id not yet in use keeps the pin ids unique |
| PinsHandler.Insert | backend/pins/index.py:114-121 | exactly the one row is appended and the tables stay well keyed |
| PinsHandler.HandlePost | backend/pins/index.py:97-131 | a blank title, blank content or missing author gives missing fields and inserts nothing; otherwise exactly the new row is appended and returned |
| PinsHandler.HandleDelete | backend/pins/index.py:133-171 | a missing pin or user id is an error; the administrator sets the reports to 999; anyone else is refused and nothing changes |
| ActionsHandler.ClientIp | backend/actions/index.py:37 | the reporter address is the whole first comma-separated entry of the forwarded header: a comma-free prefix followed by a comma or the end of the header; `0.0.0.0` without the header |
| ActionsHandler.FirstPieceIsPrefix | backend/actions/index.py:37 | the first piece of a split is a prefix of the text, ended by the separator when more pieces follow |
| ActionsHandler.IncrementPinReports | backend/actions/index.py:44-45 | the pins with the id gain exactly one report; nothing else changes |
| ActionsHandler.IncrementCommentReports | backend/actions/index.py:46-47 | the comments with the id gain exactly one report; nothing else changes |
| ActionsHandler.ReportTwiceCountsTwice | backend/actions/index.py:37-47 | a second report from the same address adds a second report to the pin: the increment does not depend on the guard insert |
| ActionsHandler.ReportPinTimes | backend/actions/index.py:44-45 | after k reports the rows with the id have exactly k more reports and nothing else in any row changes |
| ActionsHandler.ReportsAccumulate | backend/actions/index.py:44-45 | k reports add exactly k to the pin's counter and change nothing else in its row |
| ActionsHandler.TenReportsHideAFreshPin | backend/actions/index.py:44-45 | ten reports hide a pin that had none |
| ActionsHandler.HasFavorite | backend/actions/index.py:110-125 | whether some favourite row links the user and the pin |
| ActionsHandler.AddFavorite | backend/actions/index.py:65-69 | the edge is present afterwards; an existing edge leaves the table as it was; otherwise exactly one row is appended |
| ActionsHandler.RemoveFavorite | backend/actions/index.py:70-74 | the edge is absent afterwards and every other row is kept |
| ActionsHandler.AddFavoriteIdempotent | backend/actions/index.py:65-69 | adding an edge twice is adding it once |
| ActionsHandler.RemoveFavoriteIdempotent | backend/actions/index.py:70-74 | removing twice is removing once |
| ActionsHandler.RemoveUndoesAdd | backend/actions/index.py:63-74 | removing right after adding gives the table that removing alone gives |
| ActionsHandler.SetFavorite | backend/actions/index.py:60-74 | the edge is present exactly when the flag asks for it, and no other user-pin pair changes |
| ActionsHandler.SetFavoriteKeepsEdgesUnique | backend/actions/index.py:63-74 | the table keeps at most one row per user-pin pair |
| ActionsHandler.FavoriteTargets | backend/actions/index.py:90-97 | the visible pins with an author that a favourite row points to |
| ActionsHandler.JoinFavorites | backend/actions/index.py:90-97 | every joined pin is stored, not hidden, pointed to by one of the rows, and carries its author's name and verified flag |
| ActionsHandler.JoinFavoritesDistinct | backend/actions/index.py:90-97 | when the rows point at distinct pins and pin ids are unique, no pin is joined twice |
| ActionsHandler.JoinFavoritesComplete | backend/actions/index.py:90-97 | every visible pin with an author that a row points to is joined |
| ActionsHandler.FavoritePins | backend/actions/index.py:87-97 | every listed pin is stored, not hidden, a favourite of the user and carries its author's name and verified flag; with unique favourite pairs and pin ids, no pin is listed twice |
| ActionsHandler.ReorderedRowsOnePerTarget | backend/actions/index.py:87-89 | the user's favourite rows, in any order, are never repeated and point at distinct pins when the table has no duplicate pair |
| ActionsHandler.FavoritePinsComplete | backend/actions/index.py:90-97 | every favourite pin that is not hidden and has an author is listed, private or not |
| ActionsHandler.Handle | backend/actions/index.py:14-160 | a preflight gets the preflight answer; a report adds the guard and bumps the pin or comment counter; a favourite sets or clears the edge; the three queries write nothing; unknown actions are invalid |
| AdminHandler.Summary | backend/admin/index.py:59 | the search columns of a user, without the password |
| AdminHandler.Summaries | backend/admin/index.py:58-64 | one summary per user in order; newest-first users give newest-first summaries |
| AdminHandler.MatchingUsers | backend/admin/index.py:58-62 | exactly the users whose name contains the search text ignoring case |
| AdminHandler.SearchPage | backend/admin/index.py:58-64 | users matching the search text ignoring case, newest account first: all of them when at most 100 match, otherwise exactly 100 |
| AdminHandler.SearchPageComplete | backend/admin/index.py:58-64 | when at most 100 users match, every matching user is on the page |
| AdminHandler.SearchPageIsTop | backend/admin/index.py:58-64 | the page is drawn from the matching users, and a matching user left off by the limit registered no later than any listed one |
| AdminHandler.SearchUsers | backend/admin/index.py:58-73 | the summaries of the search page, in order: matching users, created-at descending, all of them when at most 100 match, otherwise exactly 100; so `SearchPageIsTop` makes them the 100 newest |
| AdminHandler.SearchUsersComplete | backend/admin/index.py:58-73 | when at most 100 users match, every matching user's summary is listed, for any search text |
| AdminHandler.EmptySearchListsEveryone | backend/admin/index.py:58-64 | with an empty search and at most 100 accounts, every account is listed |
| AdminHandler.ParseAction | backend/admin/index.py:106-126 | exactly the four names `ban`, `unban`, `verify`, `unverify` are actions |
| AdminHandler.Switch | backend/admin/index.py:106-117 | ban and unban set the banned flag; verify and unverify set the verified flag; nothing else |
| AdminHandler.ApplyAction | backend/admin/index.py:106-117 | every row with the target id is switched and every other row is kept |
| AdminHandler.KeepsIdentity | backend/admin/index.py:106-117 | no action changes an id, name, password or date |
| AdminHandler.KeepsKeys | backend/admin/index.py:106-117 | ids and names stay unique |
| AdminHandler.ActionIdempotent | backend/admin/index.py:106-117 | applying an action twice is applying it once |
| AdminHandler.ActionsAreOpposites | backend/admin/index.py:106-117 | unban after ban, and unverify after verify, give the same rows as unban or unverify alone |
| AdminHandler.UnknownTargetChangesNothing | backend/admin/index.py:106-136 | an action on a missing or unknown target leaves every user unchanged |
| AdminHandler.AdminSurvivesActions | backend/admin/index.py:93-117 | the administrator is still the administrator after any action |
| AdminHandler.HandleGet | backend/admin/index.py:30-75 | refused exactly when the caller is missing or not `Developer`; otherwise the search |
| AdminHandler.HandlePost | backend/admin/index.py:77-136 | a caller that is not the administrator is refused and nothing changes; an unknown action is invalid and nothing changes; otherwise success with the action applied |
| AuthHandler.AccountOf | backend/auth/index.py:84 | the returned columns of an account |
| AuthHandler.FindByName | backend/auth/index.py:52-53 | a user with exactly that name, or none when no user has it |
| AuthHandler.FindByCredentials | backend/auth/index.py:83-87 | a user with that name and password, or none when no user has both |
| AuthHandler.NewUser | backend/auth/index.py:65-70 | the new row is verified exactly when the name is `Developer`, and is not banned |
| AuthHandler.Login | backend/auth/index.py:82-111 | invalid credentials exactly when no user has both the name and the password; banned only for a matching banned user; otherwise that user's account |
| AuthHandler.CredentialsFindTheirUser | backend/auth/index.py:83-87 | with unique names, a stored user's own credentials find that user |
| AuthHandler.LoginOwnCredentials | backend/auth/index.py:83-111 | a stored user's own credentials give the account, or banned when the user is banned |
| AuthHandler.RegisterThenLogin | backend/auth/index.py:51-111 | after registering a new name, logging in with it returns the new account, unbanned |
| AuthHandler.BanBlocksLogin | backend/auth/index.py:99-105 | after a ban the user's own credentials get banned; after an unban they log in |
| AuthHandler.FreshIdKeepsIdsUnique | backend/auth/index.py:65-70 | inserting a row under an id not yet in use keeps the ids unique |
| AuthHandler.Register | backend/auth/index.py:51-79 | a taken name is refused and nothing changes; otherwise exactly the new row is inserted and its account returned |
| AuthHandler.Handle | backend/auth/index.py:7-119 | preflight, method not allowed, missing credentials after trimming, name taken, one inserted row on registration, login that writes nothing, invalid action |
| CommentsHandler.ShownRows | backend/comments/index.py:44-50 | a reordering of the matching comments, each as often as stored, newest first; exactly the pin's comments that are not hidden and have an author |
| CommentsHandler.AttachCommentAuthors | backend/comments/index.py:44-47 | each comment joined with its author's name and verified flag |
| CommentsHandler.MatchingComments | backend/comments/index.py:44-49 | exactly the comments of the pin that are not hidden and have an author, before ordering |
| CommentsHandler.ListComments | backend/comments/index.py:44-59 | one row per shown row, in the same order (so no comment is repeated), each carrying its author's name and verified flag; every listed comment belongs to the pin and is not hidden; the list is created-at descending |
| CommentsHandler.ListCommentsComplete | backend/comments/index.py:44-50 | every visible comment of the pin with an author is listed |
| CommentsHandler.ListingIgnoresPin | backend/comments/index.py:44-50 | the comments of a hidden private pin are still listed |
| CommentsHandler.FiveReportsHide | backend/comments/index.py:48 | a comment with five reports is not listed |
| CommentsHandler.NewComment | backend/comments/index.py:67-83 | the new row has the trimmed content and no reports |
| CommentsHandler.HandleGet | backend/comments/index.py:30-61 | a missing pin id is an error; otherwise the listing |
| CommentsHandler.HandlePost | backend/comments/index.py:63-103 | missing ids or blank content insert nothing; otherwise exactly one row is appended and returned with its author |
| CommentsHandler.PostedCommentIsListed | backend/comments/index.py:79-83 | a comment just posted by an existing user shows in its pin's listing |
| Storage.FavoritesOf | src/components/PinDetail.tsx:99 | the user's favourite list, empty when it was never written |
| Storage.PinReportKey | src/components/PinDetail.tsx:115 | the guard key ends with the pin id and has the expected length |
| Storage.CommentReportKey | src/components/PinDetail.tsx:128 | the guard key ends with the comment id and has the expected length |
| Storage.GuardKindsDisjoint | src/components/PinDetail.tsx:115-128 | a pin guard never equals a comment guard |
| Storage.PinReportKeyInjective | src/components/PinDetail.tsx:115 | with underscore-free pin ids, equal keys mean the same user and pin |
| Storage.CommentReportKeyInjective | src/components/PinDetail.tsx:128 | with underscore-free comment ids, equal keys mean the same user and comment |
| Storage.ClockIdsHaveNoUnderscore | src/components/CreatePin.tsx:73 | ids made from a clock reading hold no underscore |
| Storage.UnderscoreIdsCollide | src/components/PinDetail.tsx:115 | two different user-pin pairs share one key when ids may hold an underscore |
| Storage.FindLocalPin | src/pages/RawPin.tsx:20 | the first stored pin with the id, or none when no pin has it |
| Storage.IncrementLocalViews | src/components/MainFeed.tsx:88-90 | the pins with the id gain exactly one view; nothing else changes |
| Storage.ReplaceLocalPin | src/components/MainFeed.tsx:104 | every pin with the updated id is replaced; every other pin is kept |
| Storage.VisibleLocalPins | src/components/MainFeed.tsx:66-70 | exactly the stored pins with fewer than ten reports, in stored order |
| Storage.StaleWriteBackLosesReports | src/components/PinDetail.tsx:122-123 | writing back a pin read before later reports lowers its stored report count |
| PinDetailView.ShownComments | src/components/PinDetail.tsx:89-93 | exactly the pin's stored comments with fewer than five reports, in stored order |
| PinDetailView.IncrementLocalCommentReports | src/components/PinDetail.tsx:135-139 | the comments with the id gain exactly one report; nothing else changes |
| PinDetailView.NewLocalComment | src/components/PinDetail.tsx:147-154 | the new comment has the decimal clock id, the pin, the author, the untrimmed text and no reports |
| PinDetailView.ToggledFavorites | src/components/PinDetail.tsx:164-167 | shown as a favourite: every copy of the id is removed; otherwise the id is appended |
| PinDetailView.ToggleTwiceRestoresMembership | src/components/PinDetail.tsx:163-169 | two toggles from an up-to-date view restore which ids are in the list |
| PinDetailView.StaleToggleDuplicates | src/components/PinDetail.tsx:164-167 | a view that wrongly shows no favourite appends a second copy |
| PinDetailView.ReportedCommentShownUntilReload | src/components/PinDetail.tsx:135-140 | a comment reported up to five stays on screen until the next poll drops it |
| PinDetailView.PinDetail.constructor | src/components/PinDetail.tsx:87-100 | the view opens with the pin's shown comments and the stored favourite flag |
| PinDetailView.PinDetail.LoadComments | src/components/PinDetail.tsx:88-94 | one poll sets the shown comments |
| PinDetailView.PinDetail.HandleReport | src/components/PinDetail.tsx:114-125 | when the guard is set, nothing changes; otherwise the guard is set and the pin with one more report is passed on |
| PinDetailView.PinDetail.HandleCommentReport | src/components/PinDetail.tsx:127-142 | when the guard is set, nothing changes; otherwise the guard is set and that comment gains one report in storage and on screen |
| PinDetailView.PinDetail.HandlePostComment | src/components/PinDetail.tsx:144-161 | blank text does nothing; otherwise exactly one comment is appended to storage and to the screen, and the input is cleared |
| PinDetailView.PinDetail.ToggleFavorite | src/components/PinDetail.tsx:163-170 | only this user's list changes, as toggled, and the flag flips |
| MainFeedView.FeedRankOrder | src/components/MainFeed.tsx:80-85 | a list sorted by the rank is views descending, newest first or oldest first |
| MainFeedView.TitleMatching | src/components/MainFeed.tsx:78-79 | exactly the loaded pins whose title contains the query ignoring case; all of them when every title matches |
| MainFeedView.FilteredPins | src/components/MainFeed.tsx:78-85 | a permutation of the loaded pins whose title contains the query ignoring case, in the chosen order |
| MainFeedView.EmptyQueryShowsAll | src/components/MainFeed.tsx:78-79 | with an empty query the display is a permutation of all loaded pins |
| MainFeedView.SortedListUnchanged | src/components/MainFeed.tsx:80-85 | a list already in order is shown as it is: the sort is stable |
| MainFeedView.ClickDropsHiddenPins | src/components/MainFeed.tsx:87-92 | after a click, storage holds no hidden pin, and it is shorter whenever one was stored |
| MainFeedView.MainFeed.constructor | src/components/MainFeed.tsx:56-76 | mounting loads the visible pins, with an empty search, newest first and nothing open |
| MainFeedView.MainFeed.Displayed | src/components/MainFeed.tsx:78-85 | a reordering of the loaded pins matching the search, each as often as loaded, in the chosen order |
| MainFeedView.MainFeed.LoadPins | src/components/MainFeed.tsx:65-71 | one poll loads the visible stored pins |
| MainFeedView.MainFeed.HandlePinClick | src/components/MainFeed.tsx:87-94 | the clicked pin gains one view in the loaded list, that list is written to storage, and the pin opens |
| MainFeedView.MainFeed.OnUpdate | src/components/MainFeed.tsx:103-108 | the updated pin replaces its loaded copy, the loaded list is written to storage, and the pin stays open |
| MainFeedView.MainFeed.OnClose | src/components/MainFeed.tsx:102 | nothing is open |
| FavoritesView.FavoritePins | src/components/Favorites.tsx:42-46 | exactly the stored pins whose id is a favourite and that are not hidden, in stored order |
| FavoritesView.DanglingIdsIgnored | src/components/Favorites.tsx:45 | a favourite id with no stored pin changes nothing |
| FavoritesView.DuplicateIdsListedOnce | src/components/Favorites.tsx:45 | repeated favourite ids do not repeat a pin |
| FavoritesView.ClickKeepsHiddenPins | src/components/Favorites.tsx:54-56 | a click keeps every stored pin, hidden or not, and changes only the views of pins with the id |
| FavoritesView.Favorites.constructor | src/components/Favorites.tsx:35-51 | mounting loads the favourite pins and opens nothing |
| FavoritesView.Favorites.LoadFavorites | src/components/Favorites.tsx:42-47 | one poll loads the favourite pins |
| FavoritesView.Favorites.HandlePinClick | src/components/Favorites.tsx:53-58 | the full stored list gains one view on the pin, which opens |
| FavoritesView.Favorites.OnUpdate | src/components/Favorites.tsx:67-71 | the updated pin replaces its copy in the full stored list and stays open |
| FavoritesView.Favorites.OnClose | src/components/Favorites.tsx:66 | nothing is open |
| AuthScreenView.RegisteredMeansPresent | src/components/AuthScreen.tsx:79 | when no stored password is empty, a name is registered exactly when it is present |
| AuthScreenView.Registered | src/components/AuthScreen.tsx:79 | a name counts as registered when it maps to a non-empty password |
| AuthScreenView.LoginAccepted | src/components/AuthScreen.tsx:72 | login is accepted when the name is registered with exactly this password |
| AuthScreenView.Register | src/components/AuthScreen.tsx:82-83 | the name maps to the password, every other entry is kept, and no empty password is introduced |
| AuthScreenView.RegisterThenLogin | src/components/AuthScreen.tsx:71-86 | after registering, the same password logs in and any other is refused |
| AuthScreenView.AuthScreen.constructor | src/components/AuthScreen.tsx:57-59 | the form starts in registration mode with empty fields |
| AuthScreenView.AuthScreen.HandleSubmit | src/components/AuthScreen.tsx:64-88 | empty fields do nothing; login succeeds iff the stored password matches and writes nothing; registration of a taken name is refused; otherwise exactly that entry is added and the user logs in |
| CreatePinView.NewLocalPin | src/components/CreatePin.tsx:72-80 | the new pin has the trimmed title and content, the author, no views and no reports, and is visible |
| CreatePinView.IdMatchesDateIffSameReading | src/components/CreatePin.tsx:73-77 | the id spells the date exactly when the two clock readings agree |
| CreatePinView.DistinctReadingsDistinctKeys | src/components/CreatePin.tsx:73 | pins published at different readings have different report guard keys |
| CreatePinView.PublishedPinInFeed | src/components/CreatePin.tsx:82-84 | a published pin is in the feed after the next load |
| CreatePinView.CreatePin.constructor | src/components/CreatePin.tsx:50-51 | the form starts empty |
| CreatePinView.CreatePin.HandlePublish | src/components/CreatePin.tsx:66-89 | publishes iff neither field is blank; then exactly one pin is appended and the form cleared; otherwise nothing changes |
| CreatePinNewView.TrimAll | src/components/CreatePinNew.tsx:95 | every piece trimmed, one for one |
| CreatePinNewView.ParseTags | src/components/CreatePinNew.tsx:93-96 | every tag is non-empty, trimmed and free of commas |
| CreatePinNewView.ParseTagsComplete | src/components/CreatePinNew.tsx:93-96 | the tags are, with their repetitions, exactly the trimmed pieces that are not empty |
| CreatePinNewView.TagCountBound | src/components/CreatePinNew.tsx:93-96 | at most one tag more than there are commas |
| CreatePinNewView.CleanPieces | src/components/CreatePinNew.tsx:93-96 | kept pieces are trimmed, non-empty and comma-free |
| CreatePinNewView.ParseTagsKeepsOrder | src/components/CreatePinNew.tsx:93-96 | the tags are a subsequence of the trimmed pieces: input order is kept |
| CreatePinNewView.BlankInputNoTags | src/components/CreatePinNew.tsx:93-96 | blank input gives no tags |
| CreatePinNewView.DuplicatesKept | src/components/CreatePinNew.tsx:93-96 | a tag typed twice is parsed twice |
| CreatePinNewView.AuthorParam | src/components/CreatePinNew.tsx:101 | the author id as the backend reads it: zero counts as missing |
| CreatePinNewView.CreateRequest | src/components/CreatePinNew.tsx:98-104 | the request carries the trimmed title and content, the author, the private flag and the parsed tags |
| CreatePinNewView.FormAndBackendAgree | src/components/CreatePinNew.tsx:98-104 | a request the form sends is accepted by the pins handler, which stores exactly its title, content, tags and author |
| CreatePinNewView.FormReady | src/components/CreatePinNew.tsx:85 | the form may be sent exactly when neither title nor content is blank |
| CreatePinNewView.CreatePinNew.constructor | src/components/CreatePinNew.tsx:65-69 | the form starts empty, public and not loading |
| CreatePinNewView.CreatePinNew.Request | src/components/CreatePinNew.tsx:98-104 | a ready form of a signed-in user sends a request the backend accepts |
| CreatePinNewView.CreatePinNew.Clear | src/components/CreatePinNew.tsx:108-111 | every field is empty and the pin is public again |
| CreatePinNewView.CreatePinNew.HandlePublish | src/components/CreatePinNew.tsx:84-120 | a blank title or content sends nothing; otherwise the request is sent, the form is cleared only when a pin comes back, and loading ends |
| RawPinView.RawText | src/pages/RawPin.tsx:18-37 | the content of the first stored pin with the id, or `Pin not found` when there is none |
| RawPinView.HiddenPinStillServed | src/pages/RawPin.tsx:20 | a hidden pin's content is still shown |
| RawPinView.ViewsKeepRawText | src/pages/RawPin.tsx:19-23 | counting views never changes what the page shows |

## Left out

- Network and database plumbing:
  - database connections;
  - the HTTP envelope (status codes, headers, JSON bodies);
  - the preflight branches of the pins, admin and comments handlers;
  - the method-not-allowed answers of the pins, admin and comments handlers.

  The preflight answers of the auth and actions handlers, and the auth handler's method check, are modelled.
- Concurrency: the model is sequential. This includes the atomicity of the counter updates, and two browser tabs writing storage at once. `StaleWriteBackLosesReports` and `StaleToggleDuplicates` show what a stale read does.
- Column defaults: new rows are assumed to start with 0 views, 0 reports, not banned, and the current time. The table definitions are not part of this model.
- Unique keys: the insert that ignores conflicts is taken to hit unique keys on user-pin favourite pairs and on address-type-id report triples. Report guards are a set.
- Row order: the order of rows a query returns without a full ordering is taken as table order. Ties keep table order (a stable sort).
- Matching: search text is matched as plain text. `%` and `_` inside it are not treated as wildcards. Case folding is ASCII only, and whitespace is a fixed set of ASCII characters. Unicode folding and whitespace are not modelled.
- Null values: an id the handler tests for truthiness is `None` when it is missing, null or empty. Ids read from a JSON body are numbers, so 0 is falsy there and is `None` too. Ids read from the query string are strings, so `"0"` is present and is `Some(0)`: `GET pins?id=0` takes the lookup branch, and `GET comments?pin_id=0` lists comments. Non-integer ids and malformed JSON are not modelled.
- CommentsHandler.HandlePost: when the author lookup after the insert fails, the code crashes after committing. The model answers `AuthorMissing` and keeps the row.
- Browser storage:
  - Object keys such as `__proto__` in the users map are not modelled.
  - A storage key that was never written reads as empty. When the pins or comments key is absent, the feed and the detail view keep their previous list instead of loading an empty one. The model loads the empty list.
- UI with no store rules, and external calls: clipboard, opening the raw page, `.txt` upload, toasts, translations, date formatting, the search and sort setters, and the sign-in mode switch.
- Polling timers: one poll is one call of the load method.
- The transport: the request of `CreatePinNewView.CreatePinNew.HandlePublish` is returned to the caller, and the backend's answer (or a connection failure) is the `answer` parameter.
- The plain-text page: modelled as the pure function `RawText`. When the id in the address changes and no pin is found, the page keeps showing the previous pin; this is not modelled.
- ActionsHandler.FavoritePins: its contract states membership, visibility, the author columns, that no pin is listed twice (given the unique favourite pairs that `ON CONFLICT DO NOTHING` relies on, and unique pin ids) and completeness (with `FavoritePinsComplete`). It does not state the most-recent-first order of the favourite rows. The order is computed by `Sorting.SortBy` and is not restated for the joined list.
- Clock readings: `Date.now()` is passed in as parameters. Two readings in one handler are two parameters, and collisions of clock ids are not modelled beyond `DistinctReadingsDistinctKeys`.
