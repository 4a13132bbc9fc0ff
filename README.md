# StreamFlix storefront, modelled in Dafny

StreamFlix is a PHP movie shop. Visitors register, sign in, browse and search the catalogue, keep a
watchlist and buy movies. Administrators add, edit, toggle and delete movies. This project models
the pages that make up that core, one Dafny module per page, over an in-memory copy of the MySQL
tables and of `$_SESSION`:

- `Php`: the PHP built-ins the pages apply to request strings (`trim`, `empty()`, `is_numeric`,
  `(int)`, `filter_var(..., FILTER_VALIDATE_INT)`, case mapping, integer printing).
- `Store`: the tables config.php creates, as datatypes, and the `Database` class whose methods are
  the SQL statements the pages run, with the foreign keys and UNIQUE keys that make them fail.
- `Sessions`: `$_SESSION` as a `Session` class the handlers update in place.
- `Config`: the helper functions of config.php.
- One module per page: `Register`, `Login`, `Profile`, `Search`, `Home` (index.php), `Checkout`,
  `Purchase` (process-purchase.php), `Confirmation` (order-confirmation.php), `Watchlist`
  (process-watchlist.php and remove_from_watchlist.php), `Dashboard`, `AddMovie`, `EditMovie`,
  `AdminMovies` (the admin pages), `MovieForm` (the form handling add_movie.php and edit_movie.php
  share) and `SearchClient` (assets/js/search.js).
- `Accounts`: the lookups the account pages share.

Each request handler is a method over a `Database` and a `Session`. Its postcondition ties the
outcome, the new session and the new tables to a specification function of the old ones. Lemmas
then state what the page promises about that function: which guards come first, what is written,
what is left untouched and how pages fit together. Examples are registering then signing in, and
checking out then viewing the confirmation. Everything the pages cannot decide is a parameter:
database failures, the clock, password hashing and checking, and `filter_var` email validation.
Loops in the source, such as cart resolution, the order-item inserts, the home page's merge of two
lists and the dropdown's keyboard handling, are methods with loop invariants. Each is proved to
compute its specification function.

Money is integer cents (DECIMAL(10,2)), ratings integer tenths (DECIMAL(3,1)) and timestamps
integer seconds.

## Model

| member | source | states |
|---|---|---|
| Php.Trim | login.php:14 | trim(): the result neither starts nor ends with one of the six characters PHP strips, and it is empty exactly when the input holds nothing else |
| Php.TrimKeepsClean | register.php:15-16 | a string that neither starts nor ends with a trim character is its own trim |
| Php.IntCast | admin/dashboard.php:41 | (int) of a string: leading whitespace, a sign and the leading digits; a string that starts with anything else gives 0 |
| Php.IntCastRoundTrip | admin/edit_movie.php:17 | (int) of a printed integer is that integer |
| Php.TruncateToInt | checkout.php:22 | (int) of a numeric value truncates toward zero, for negative values as well |
| Php.NumericOfDigits | includes/process/process-watchlist.php:27-33 | a run of decimal digits is numeric with the value it denotes |
| Php.FilterInt | order-confirmation.php:20 | FILTER_VALIDATE_INT: only values inside the 64-bit range pass, and a digit string with a leading zero is refused |
| Php.FilterIntRoundTrip | order-confirmation.php:20 | every 64-bit integer, printed, passes FILTER_VALIDATE_INT with its own value |
| Php.NatToStringRoundTrip | checkout.php:110 | the decimal an order id is printed as reads back as that id |
| Php.Lower | admin/add_movie.php:159 | strtolower keeps the length and lowers each character |
| Php.UpperChar | profile.php:563 | strtoupper of a character: a lower-case letter becomes its capital, anything else stays |
| Store.UsageCount | config.php:179-188 | the number of order_items rows referencing a movie is 0 exactly when no row references it |
| Store.WithoutPair | includes/process/remove_from_watchlist.php:23-24 | the DELETE keeps exactly the rows that do not hold the (user, movie) pair |
| Store.LinksWithout | admin/edit_movie.php:188-189 | the DELETE keeps exactly the category links of other movies |
| Store.WithStatus | config.php:297-298 | UPDATE orders SET status changes the status of the rows with that id and nothing else |
| Store.WithStatusKeepsIds | config.php:297-298 | the status update keeps the set of order ids, and an order's owner and id bound carry over, so the foreign keys still hold |
| Store.WithProfile | profile.php:68-69 | UPDATE users SET name, email changes only the row with that id |
| Store.WithProfileKeepsIds | profile.php:68-69 | the profile update keeps the set of user ids and every id stays under the counter |
| Store.WithoutPairKeepsUnique | includes/process/process-watchlist.php:83-84 | deleting a pair keeps the watchlist free of duplicate pairs |
| Store.Database.constructor | config.php:121-241 | empty tables satisfy every foreign key the schema declares |
| Store.SqlKeyMatches | admin/movies.php:28-33 | an INT id equals the bound string compared as numbers exactly when it is the string's key, so a value with a fractional part matches no row |
| Store.SqlKeyOfPrintedInt | admin/movies.php:21-33 | a printed integer is read back as itself, the same id (int) gives |
| Store.DecimalReads | admin/movies.php:28-33 | digits, a point and digits read as their digits together, scaled by the number after the point |
| Store.ExponentReads | admin/movies.php:28-33 | digits, "e" and digits read with the exponent applied |
| Store.FractionMatchesNothing | admin/movies.php:21-33 | "5.5" matches no row, where (int) reads 5 |
| Store.ZeroFractionMatchesWhole | admin/movies.php:28-33 | "5.0" matches id 5 |
| Store.ExponentScalesKey | admin/movies.php:21-33 | "1e1" matches id 10, where (int) reads 1 |
| Store.Database.Restore | checkout.php:112-114 | ROLLBACK restores every table while the auto-increment counters keep their values |
| Store.Database.InsertOrder | config.php:167-177 | the insert succeeds exactly when it does not fail and the user exists (FOREIGN KEY); the row gets the next id; a refusal changes nothing |
| Store.Database.InsertOrderItem | config.php:179-188 | the insert succeeds exactly when the order and the movie exist; a refusal changes nothing |
| Store.Database.InsertHistory | config.php:190-197 | the insert succeeds exactly when the order exists; a refusal changes nothing |
| Store.Database.UpdateOrderStatus | config.php:297-298 | the UPDATE changes only the status of the rows with that id |
| Store.Database.InsertWatch | config.php:222-229 | the insert is refused with 23000 when the user or movie is missing, or when the pair is present and the table has a UNIQUE key; otherwise the row is appended |
| Store.Database.DeleteWatch | includes/process/remove_from_watchlist.php:23-24 | the DELETE removes exactly the rows holding the pair |
| Store.Database.DeleteMovie | config.php:186-187 | the DELETE is refused while order_items or watchlist rows reference the movie (no ON DELETE CASCADE) |
| Store.Database.InsertMovie | admin/add_movie.php:114-129 | the new movie gets the next id and nothing else changes |
| Store.Database.UpdateMovie | admin/edit_movie.php:164-184 | the UPDATE replaces the row's columns, and a missing id changes nothing |
| Store.Database.SetMovieStatus | admin/dashboard.php:71-72 | the UPDATE sets the status of an existing row only |
| Store.Database.DeleteCategoryLinks | admin/edit_movie.php:188-189 | removes exactly the movie's category links |
| Store.Database.InsertCategoryLink | admin/add_movie.php:134-137 | appends one (movie, category) link |
| Store.Database.InsertUser | config.php:121-133 | the insert is refused when the username or the email is taken (UNIQUE); the new row has role 2 |
| Store.Database.UpdateUserProfile | profile.php:68-69 | the UPDATE succeeds exactly when the users table has a `name` column and no other user holds the email |
| Sessions.Session.constructor | config.php:13-21 | a session holds the given keys |
| Sessions.Session.Destroy | checkout.php:48 | session_destroy() unsets every key |
| Config.IsAdmin | config.php:77-82 | isAdmin() holds exactly when user_id is set and role_id is set and equals 1 |
| Config.StatusNamed | config.php:171 | a status string names at most one ENUM value, and names it exactly when it is that value's name |
| Config.StatusColor | config.php:101-114 | each of the four statuses gets its colour, and every other string gets "secondary" |
| Config.StatusColorsDistinct | config.php:101-114 | the four statuses get four different colours, none of them the fallback |
| Config.EscapeChar | config.php:92 | htmlspecialchars with ENT_QUOTES rewrites exactly & < > " ' |
| Config.Escape | config.php:92 | an escaped string is no shorter and holds none of < > " ' |
| Config.EscapeEdges | config.php:92 | an escaped string starts with the input's first character or an entity's '&', and ends with its last character or an entity's ';' |
| Config.SanitizeProperties | config.php:91-93 | sanitize() neither starts nor ends with whitespace |
| Config.EscapeKeepsEdges | config.php:92 | escaping a string that neither starts nor ends with whitespace gives one that does not either |
| Config.SanitizeEmpty | config.php:91-93 | sanitize() is empty exactly when the input is all whitespace |
| Config.VerifyCsrfToken | config.php:318-320 | a token verifies exactly when the session holds that token |
| Config.Bin2Hex | config.php:311 | two lower-case hexadecimal digits per byte |
| Config.Bin2HexRoundTrip | config.php:311 | decoding the token gives the random bytes back, so distinct bytes give distinct tokens |
| Config.WithToken | config.php:310-312 | after the include step the session always holds a token |
| Config.IncludeConfig | config.php:310-312 | the include step stores bin2hex of the random bytes when no token is set and changes nothing else |
| Config.TokenIssued | config.php:310-320 | only the token changes; a stored token is kept, a new one is 64 hexadecimal characters encoding the 32 bytes, and the stored token verifies |
| Config.TokenStable | config.php:310-320 | later includes keep the first token whatever bytes they draw, so it still verifies |
| Config.PendingItemCount | config.php:276-278 | the count never exceeds the number of order items |
| Config.CartCount | config.php:271-285 | 0 when logged out or when the query fails, otherwise the count of the user's pending order items |
| Config.NonPendingOrderNotCounted | config.php:276-278 | adding an order that is not pending, with its items, leaves the count unchanged |
| Config.CartCountAsWritten | config.php:271-280 | as written, a logged-in call uses the never-assigned `$pdo` and ends in a fatal error |
| Config.CartCountAsWrittenFails | config.php:274 | a user with one pending item gets a fatal error where the count 1 was meant |
| Config.HistoryOutcome | config.php:287-307 | the save commits exactly when both statements succeed, the status is an ENUM value and the order exists; otherwise the tables are unchanged |
| Config.HistoryAgreesWithStatus | config.php:293-298 | after a save, the order's status is that of its newest history row, and the other orders and tables are unchanged |
| Config.SaveOrderHistory | config.php:287-307 | the transaction computes HistoryOutcome, rolling back when the UPDATE throws |
| Config.SaveOrderHistoryAsWritten | config.php:288-290 | as written, the unassigned `$pdo` makes the first call fatal |
| Config.SaveOrderHistoryAsWrittenFails | config.php:288 | cancelling order 1 ends fatally as written, and records 'cancelled' as intended |
| Checkout.Resolve | checkout.php:64-77 | every resolved line is a movie of the cart at its current catalogue price, and there are no more lines than entries |
| Checkout.ResolveCart | checkout.php:60-77 | the loop computes Resolve and its sum |
| Checkout.ResolveKeepsEveryEntry | checkout.php:64-73 | when every lookup answers, every cart entry gives its own line, in cart order, duplicates included |
| Checkout.ResolveDropsUnresolved | checkout.php:70-76 | unknown entries and failed lookups give no line and add nothing to the total |
| Checkout.ResolveChargesKept | checkout.php:64-77 | the lines are exactly the cart entries whose lookup answers and finds the movie, in cart order and once per occurrence, each at its catalogue price |
| Checkout.UnknownEntrySkipped | checkout.php:64-77 | an unknown id between two known ones is skipped and the two known ones are charged |
| Checkout.SumAppend | checkout.php:72 | the total is additive over the lines |
| Checkout.DuplicateCharged | checkout.php:64-73 | a movie in the cart twice is charged twice |
| Checkout.ItemRows | checkout.php:90-93 | one order_items row per line, with quantity 1 and the line's price |
| Checkout.InsertItems | checkout.php:89-93 | the item loop succeeds exactly when every line's movie exists and no insert throws, and then adds one row per line, in order, with consecutive ids, the line's price and quantity 1, changing nothing else |
| Checkout.PlaceOrder | checkout.php:80-117 | the transaction commits exactly when the order insert and every item insert succeed; a commit adds exactly one completed order and its items; a failure leaves every table as it was |
| Checkout.DisplayFor | checkout.php:120-144 | the page's total is the subtotal plus 7% tax, with no shipping |
| Checkout.HandleCheckout | checkout.php:9-118 | the request computes CheckoutSpec: guards, cart replacement, order placement and session update |
| Checkout.ProcessCart | checkout.php:57-144 | the POST branch and the display compute CartPageSpec |
| Checkout.MovieIdReplacesCart | checkout.php:21-30 | a numeric movie_id replaces the cart with that one id and writes nothing |
| Checkout.EmptyCartRedirects | checkout.php:32-36 | an empty or missing cart is sent to movies.php before anything is written |
| Checkout.CheckoutWrites | checkout.php:80-96 | the tables are unchanged, or they gain exactly one completed order of the session user for the untaxed sum, and its items |
| Checkout.CheckoutSession | checkout.php:98-117 | a commit empties the cart and records the order id, total and item count; a failure keeps the cart and sets the error message |
| Checkout.DisplayedTotalIsTaxed | checkout.php:143-144 | the shown total is the stored untaxed total plus 7% |
| Checkout.Positions | checkout.php:128 | the set of every cart position |
| Checkout.DisplayAsWrittenIsEmpty | checkout.php:130 | as written, the display query names a missing column, so the page lists nothing and a zero total |
| Checkout.DisplayIntendedListsCart | checkout.php:128-137 | as intended, a cart of known movies is listed in full |
| Purchase.LineTotal | includes/process/process-purchase.php:39 | the total is the unit price for quantity 1, at least the price for a larger quantity, and negative for a negative quantity |
| Purchase.HandlePurchase | includes/process/process-purchase.php:8-76 | the request computes PurchaseSpec: guards, the transaction, and the error message with a rollback |
| Purchase.PurchaseAllOrNothing | includes/process/process-purchase.php:16-71 | either no table changes, or exactly one pending order of price times quantity and one item with the quantity and unit price are added; the session changes at most in its error field |
| Purchase.PurchaseCommitsOnlyWhen | includes/process/process-purchase.php:9-57 | an order is created exactly when a logged-in POST has every field truthy, names a known movie and no statement fails |
| Purchase.ZeroQuantityRejected | includes/process/process-purchase.php:28-30 | quantity 0 is refused like a missing field |
| Purchase.NegativeQuantityAccepted | includes/process/process-purchase.php:22-46 | a negative quantity is truthy, passes the check and is stored with a negative total |
| Watchlist.ActionOf | includes/process/process-watchlist.php:35 | the action is 'add' when none is posted, and the posted value otherwise |
| Watchlist.HandleWatchlist | includes/process/process-watchlist.php:10-95 | the request computes WatchlistSpec: guards, movie check, insert or delete, and the session message |
| Watchlist.ApplyAction | includes/process/process-watchlist.php:66-91 | for an existing movie, "add" appends the pair unless the database refuses it (already-there message on a duplicate key) and anything else deletes it, with the flash message saying which happened |
| Watchlist.HandleRemove | includes/process/remove_from_watchlist.php:4-36 | the request computes RemoveSpec |
| Watchlist.PairCount | includes/process/process-watchlist.php:69-70 | the number of rows holding a pair is 0 exactly when no row holds it |
| Watchlist.PairCountAppend | includes/process/process-watchlist.php:69-70 | appending a row adds one to the count of its own pair only |
| Watchlist.GuardsChangeNothing | includes/process/process-watchlist.php:10-48 | a logged-out visitor, a bad token, a non-numeric id or a missing movie leaves the tables unchanged with an error message |
| Watchlist.MissingActionAdds | includes/process/process-watchlist.php:35 | an absent action behaves as 'add' |
| Watchlist.OtherActionRemoves | includes/process/process-watchlist.php:66-86 | any action other than exactly 'add' deletes the pair and reports the removal |
| Watchlist.AddTwiceAsWrittenDuplicates | config.php:222-229 | with the table as config.php creates it, adding the same movie twice leaves two rows and reports success twice |
| Watchlist.AddTwiceKeepsOneRow | includes/process/process-watchlist.php:55-80 | with the UNIQUE key, the second add leaves one row and reports that the movie is already listed |
| Watchlist.AddKeepsPairsUnique | includes/process/process-watchlist.php:60 | with the UNIQUE key, no request ever creates a second row for a pair |
| Watchlist.RemoveExactlyThePair | includes/process/remove_from_watchlist.php:16-27 | removal deletes exactly the user's rows for the movie, keeps every other row, and reports success even when nothing was there |
| Watchlist.WithoutPairAbsent | includes/process/remove_from_watchlist.php:23-24 | deleting a pair no row holds changes nothing |
| Watchlist.AddThenRemove | includes/process/process-watchlist.php:66-86 | adding then removing leaves the pair absent, and both removal pages leave the same table |
| MovieForm.KeepSlugChars | admin/add_movie.php:156 | the result is no longer than the input, holds only ASCII letters, digits and PCRE whitespace, and keeps every letter and digit of the input |
| MovieForm.Hyphenate | admin/add_movie.php:158 | the result has the input's length, with a hyphen exactly where the input had a space |
| MovieForm.SlugBase | admin/add_movie.php:156-157 | the filtered, trimmed title holds only kept characters of the input and starts and ends with a non-space |
| MovieForm.SlugProperties | admin/add_movie.php:155-161 | the slug holds no upper-case letter and no space, has a hyphen exactly where the filtered, trimmed title had a space, and neither starts nor ends with a hyphen |
| MovieForm.SlugHyphenNeedsSpace | admin/add_movie.php:158 | a title without spaces gives a slug without hyphens |
| MovieForm.SlugTwice | admin/add_movie.php:155-161 | the slug of a slug has no hyphen, so re-slugging changes every slug that had one |
| MovieForm.SlugOfLowerWords | admin/add_movie.php:155-161 | lower-case words separated by single or repeated spaces map to the same text with hyphens for spaces |
| MovieForm.SlugOneSpace | admin/add_movie.php:158 | "x y" becomes "x-y" |
| MovieForm.SlugTwoSpaces | admin/add_movie.php:158 | two spaces become two hyphens: inner runs are not collapsed |
| MovieForm.SlugDropsHyphen | admin/add_movie.php:156 | a hyphen in the title is removed, not kept |
| MovieForm.SlugNotIdempotent | admin/add_movie.php:155-161 | createSlug applied twice joins the words the first pass hyphenated |
| MovieForm.MissingOf | admin/add_movie.php:37-41 | a name is reported missing exactly when it is required and its field is empty() |
| MovieForm.MissingFields | admin/add_movie.php:34-41 | the foreach over the required fields collects exactly MissingOf, in order |
| MovieForm.RangeError | admin/add_movie.php:48-62 | no error exactly when price, year, duration and rating all pass; a bad price is always the one reported |
| MovieForm.Cents | admin/add_movie.php:68 | a non-negative price is stored rounded to the nearest cent |
| MovieForm.Tenths | admin/add_movie.php:71 | a non-negative rating is stored rounded to the nearest tenth |
| MovieForm.Validate | admin/add_movie.php:34-73 | the form is refused exactly when a required field is empty or a range check fails; an accepted form yields a year in [1900, year+5], non-negative price and duration, a rating in [0, 10], the trimmed title with its slug, and an active status exactly when the checkbox was posted |
| MovieForm.StoredPrice | admin/add_movie.php:68 | a valid price is stored as a non-negative number of cents |
| MovieForm.StoredYear | admin/add_movie.php:69 | intval of a valid year stays within [1900, year+5] |
| MovieForm.StoredDuration | admin/add_movie.php:70 | intval of a valid duration is non-negative, and 0 for a value below 1 |
| MovieForm.StoredRating | admin/add_movie.php:71 | a valid rating is stored as 0 to 100 tenths |
| MovieForm.ZeroRatingIsMissing | admin/add_movie.php:38 | a rating of "0" is reported as missing, so the form is refused although 0 is in range |
| MovieForm.ZeroPointZeroRatingAccepted | admin/add_movie.php:60 | "0.0" is not empty() and passes the rating range |
| MovieForm.FirstFailureWins | admin/add_movie.php:48-50 | a bad price is reported whatever the other fields hold |
| MovieForm.AfterLast | admin/add_movie.php:86-87 | the result is a suffix of the input that holds no separator |
| MovieForm.Extension | admin/add_movie.php:87 | the extension holds no dot and no upper-case letter |
| MovieForm.UploadedPoster | admin/add_movie.php:86-107 | an upload is accepted exactly when its extension is jpg, jpeg, png or webp, it is at most 5000000 bytes and the move succeeds; the stored path is under assets/images/movies/ |
| MovieForm.PosterForAdd | admin/add_movie.php:76-111 | an uploaded file decides the poster; otherwise a non-empty posted URL is used trimmed; otherwise the poster is empty |
| MovieForm.PosterForEdit | admin/edit_movie.php:117-161 | an uploaded file decides the poster; otherwise a non-empty posted URL that differs from the current one replaces it trimmed; otherwise the current poster stays |
| MovieForm.PosterDeletionExamples | admin/edit_movie.php:146-148 | the placeholder and an external URL are never deleted |
| MovieForm.UploadTakesPrecedence | admin/add_movie.php:78-111 | with a file uploaded, the posted URL plays no part, and both forms choose the same poster |
| MovieForm.Links | admin/add_movie.php:134-137 | one link per posted id, each for the movie and one of the ids, and no other |
| MovieForm.LinkedCount | admin/add_movie.php:136-138 | fewer links are written than ids exactly when an insert fails |
| MovieForm.CategoriesOfAppend | admin/edit_movie.php:192-199 | inserting a movie's links adds exactly the posted ids to its categories and leaves every other movie's alone |
| MovieForm.CategoriesOfWithout | admin/edit_movie.php:188-189 | after the delete a movie has no category |
| MovieForm.InsertCategories | admin/add_movie.php:132-139 | the loop appends the links for the ids before the first failing insert, reports whether one failed, and changes nothing else |
| AddMovie.HandleAddMovie | admin/add_movie.php:6-151 | the request computes AddMovieSpec: admin guard, validation, poster, INSERT, category links, redirect or error |
| AddMovie.SubmitForm | admin/add_movie.php:32-151 | a posted form leaves the tables and the page as SubmitSpec says: validation, then the poster, then the writes, with nothing written when a check fails |
| AddMovie.StoreMovie | admin/add_movie.php:114-139 | the movie row goes in under the next id and one link per posted category follows until the first failed INSERT, whose message the page shows |
| AddMovie.OnlyAdminsAdd | admin/add_movie.php:6-9 | a non-admin is sent to the login page, and only an admin's POST writes anything |
| AddMovie.InvalidFormWritesNothing | admin/add_movie.php:34-62 | a form that fails validation writes nothing and shows "Error: " with the first failure's text |
| AddMovie.AddSucceedsIff | admin/add_movie.php:31-146 | the redirect to the edit page happens exactly when the form and the poster are valid and no INSERT fails |
| AddMovie.RedirectTables | admin/add_movie.php:114-146 | on the redirect the movies table gains exactly the new row under the next id and the links gain one row per posted category, in order, and nothing else changes |
| AddMovie.AddedMovieStored | admin/add_movie.php:114-146 | after the redirect the new row under the next id holds the validated values and the slug of the trimmed title, and no other movie changes |
| AddMovie.AddedMovieCategories | admin/add_movie.php:132-139 | after the redirect the movie's categories are exactly the posted ids added to any stale links under its id |
| AddMovie.FailedLinkKeepsMovie | admin/add_movie.php:132-151 | when a category INSERT fails, the page shows an error but the movie row and the links before the failure stay |
| EditMovie.InitialMessage | admin/edit_movie.php:26-30 | the intended notice: the page would start with a message exactly after a redirect with success=added (as written it never does) |
| EditMovie.AddedNoticeLost | admin/edit_movie.php:26-70 | as written the added notice is overwritten with '' before it is shown; the intended version shows it |
| EditMovie.DeletedPoster | admin/edit_movie.php:144-153 | an old file is unlinked only after a successful upload, and only when it lies under assets/images/movies/ |
| EditMovie.WriteMovie | admin/edit_movie.php:164-212 | UPDATE, DELETE of the links and the link INSERTs leave the tables and the page as WriteSpec says, stopping at the first failure |
| EditMovie.ApplyForm | admin/edit_movie.php:73-217 | the POST branch leaves the tables and the page as UpdateSpec says: nothing is written when validation or the poster step fails |
| EditMovie.HandleEditMovie | admin/edit_movie.php:6-217 | the request computes EditMovieSpec: guards, id check, lookup, validation, poster, writes and the page |
| EditMovie.OnlyValidPostsWrite | admin/edit_movie.php:6-72 | only an admin posting the form for a numeric id of an existing movie changes the tables; a non-admin goes to the login page and a non-numeric id to movies.php?error=invalid_id |
| EditMovie.UpdateRewritesRow | admin/edit_movie.php:164-204 | a successful update rewrites only the edited row, keeps created_at, stores the validated year, rating and slug, and shows the stored row |
| EditMovie.UpdateReplacesCategories | admin/edit_movie.php:186-209 | after a successful update the movie is linked to exactly the posted categories, the page shows that set, and every other movie keeps its links |
| EditMovie.WriteReplacesCategories | admin/edit_movie.php:186-209 | once the UPDATE, the DELETE and every INSERT succeed, the movie is linked to exactly the posted categories, the page shows that set, and every other movie keeps its links |
| EditMovie.ReplacedLinks | admin/edit_movie.php:188-199 | deleting a movie's links and inserting the posted ones leaves it with exactly the posted categories and every other movie with its own |
| EditMovie.FailedUpdateLosesPoster | admin/edit_movie.php:144-184 | the old poster is unlinked before the UPDATE runs, so when the UPDATE fails the row still names the deleted file |
| EditMovie.GetShowsStoredMovie | admin/edit_movie.php:26-66 | without a POST the page shows the stored row and its categories and writes nothing; it starts with the intended notice after success=added |
| Dashboard.ToggledStatus | admin/dashboard.php:65-70 | the new status is inactive exactly when the current one is active |
| Dashboard.WithStatusOf | admin/dashboard.php:71-72 | the UPDATE keeps every id and every other row |
| Dashboard.RunAction | admin/dashboard.php:44-79 | the delete and toggle branches leave the message and the tables as ActionSpec says |
| Dashboard.HandleDashboard | admin/dashboard.php:6-79 | the request computes DashboardSpec: session guard, admin-row lookup and the action |
| Dashboard.DeleteGuard | admin/dashboard.php:45-60 | a movie with order items is never deleted and the refusal gives their number; otherwise at most that one row goes, and it goes when nothing fails and no watchlist row refers to it |
| Dashboard.ToggleTwiceRestores | admin/dashboard.php:63-74 | two toggles restore the tables, and from active the first gives inactive |
| Dashboard.ToggleMissingReportsActive | admin/dashboard.php:63-74 | toggling an id with no row writes nothing but reports the status changed to active |
| Dashboard.UnknownActionIsNoOp | admin/dashboard.php:44-76 | any action other than delete or toggle writes nothing and shows no message |
| Dashboard.OnlyAdminActionsWrite | admin/dashboard.php:6-39 | only an admin whose row has role 1, asking for delete or toggle, changes the tables |
| Dashboard.PosterChoice | admin/dashboard.php:656-666 | the poster is never empty, and is the placeholder or one of the four keys |
| Dashboard.PosterPrecedence | admin/dashboard.php:658-659 | a non-empty poster_url wins whatever the later keys hold |
| Dashboard.StoredPoster | admin/dashboard.php:656-666 | for a movies row the poster is poster_url when non-empty, else the placeholder |
| Dashboard.TableRows | admin/dashboard.php:654 | at most ten rows, a prefix of the listing, and the whole listing when it is shorter |
| Dashboard.ActiveOf | admin/dashboard.php:719-721 | exactly the active movies of the listing |
| Dashboard.Featured | admin/dashboard.php:719-721 | at most four movies, all active and the first active ones of the listing; fewer than four only when every active movie is shown |
| Dashboard.ActiveOfAppend | admin/dashboard.php:719-721 | filtering distributes over concatenation |
| Dashboard.ActiveOfAllActive | admin/dashboard.php:719-721 | filtering keeps a list of active movies whole |
| Dashboard.FeaturedFromTop | admin/dashboard.php:719-721 | when the listing starts with four active movies, those four are featured |
| AdminMovies.DeleteInTransaction | admin/movies.php:25-42 | the rows the key matches go exactly when neither DELETE fails and no order item or watchlist row refers to the movie; without a key nothing is deleted and only a failing statement reports an error; otherwise the rollback leaves the tables as they were |
| AdminMovies.HandleAdminDelete | admin/movies.php:6-46 | the request computes AdminDeleteSpec: the strict admin guard, the raw ?delete= string bound to both DELETEs and compared as a number, the transaction and the session message |
| AdminMovies.DeleteIsAtomic | admin/movies.php:25-42 | either nothing changes and the error is set, or the success message is set and the movie row the key names and all its links are gone, with nothing else changed (nothing at all without a key) |
| AdminMovies.DeletesExactlyTheEqualRow | admin/movies.php:21-42 | a movie is removed exactly when the transaction commits and its id equals the ?delete= string compared as a number |
| AdminMovies.FractionalIdDeletesNothing | admin/movies.php:21-42 | ?delete=5.5 commits, reports success and deletes nothing |
| AdminMovies.OrderedMovieStoppedByForeignKey | admin/movies.php:32-42 | a movie with order items is not deleted: the foreign key fails the DELETE and the transaction rolls back |
| AdminMovies.NonAdminRedirected | admin/movies.php:6-9 | anyone but an admin is sent to the login page with nothing changed |
| Accounts.PostValue | register.php:15-18 | an unset field reads as "", a set one as its value |
| Accounts.EmailErrors | register.php:30-34 | no error exactly when the email is non-empty and valid; an empty one gives "Email is required" |
| Accounts.FindByEmail | login.php:32-34 | a found row is in the table with that email; nothing is found only when no row has it |
| Accounts.FindById | profile.php:22-24 | a found row is in the table with that id; nothing is found exactly when no row has it |
| Register.UsernameErrors | register.php:21-27 | no error exactly when the trimmed username is non-empty and 3 to 50 bytes long |
| Register.PasswordErrors | register.php:37-43 | no error exactly when the password is non-empty, at least 6 long and equal to the confirmation; the mismatch message comes only for a long enough password |
| Register.ValidationErrors | register.php:20-43 | at most three errors, none exactly when every field passes |
| Register.CollectErrors | register.php:20-43 | the branches append exactly ValidationErrors, field by field |
| Register.Submit | register.php:45-77 | the posted form computes SubmitSpec: errors, the uniqueness check (an uncaught error when its SELECT throws), INSERT and login |
| Register.HandleRegister | register.php:6-78 | the request computes RegisterSpec; a logged-in session goes home first |
| Register.FiftyCharactersAccepted | register.php:25-26 | a 50-character username passes although the message says "less than 50"; 51 characters do not |
| Register.UniquenessOnlyAfterValidation | register.php:45-53 | with validation errors the page shows those errors whatever the table holds, and writes nothing |
| Register.RegistrationCreatesUser | register.php:56-71 | a user row is added only for a new username and email, holding the hashed password and role 2; the session then holds the new id and is not an admin |
| Register.TakenRefused | register.php:48-52 | a taken username or email gives the one message and writes nothing |
| Register.FailedLookupIsFatal | register.php:46-53 | the request ends in an uncaught error exactly when a validated form's uniqueness SELECT throws, and then nothing is written and no one is logged in |
| Login.LoginErrors | login.php:18-26 | no error exactly when the email is non-empty and valid and the password non-empty; an empty email is reported first and an empty password last |
| Login.Submit | login.php:14-53 | the posted form computes SubmitSpec: errors, lookup, password check and session |
| Login.HandleLogin | login.php:6-54 | the request computes LoginSpec and only reads the tables |
| Login.LoggedInRedirected | login.php:6-9 | a logged-in session is sent home unchanged |
| Login.AuthenticationOnlyWhenValid | login.php:28-29 | with validation errors the outcome depends neither on the table, the password check nor the database, and the session is kept |
| Login.SameMessageForUnknownAndWrong | login.php:36-48 | an unknown email and a wrong password give the same message |
| Login.SignInFillsSession | login.php:36-45 | a sign-in comes from a row with that email whose hash the password verifies; the session takes its id, username and role, and the visitor goes to the redirect parameter verbatim or home |
| Login.RegisteredUserCanSignIn | register.php:56-71 | a user registered from a fresh session can sign in with the same email and password, and has role 2, so is no admin |
| Login.FindByEmailAppend | login.php:32-34 | an email no earlier row holds finds the appended row |
| Profile.Loaded | profile.php:17-45 | the row is shown exactly when its SELECT succeeds and a row has the session's id, and is the user's own; the load error is set exactly when there is no row or the order-history SELECT after it fails, so that failure keeps the row on the page |
| Profile.Update | profile.php:48-85 | the update block leaves the page, the session and the tables as UpdateSpec says: guards, UPDATE, session write, reload |
| Profile.HandleProfile | profile.php:6-85 | the request computes ProfileSpec: login guard, the load with its user and order-history faults, and a posted update whether or not the load failed |
| Profile.Avatar | profile.php:563 | at most one character and never a lower-case letter; empty exactly for a row whose name is "" |
| Profile.AvatarOfName | profile.php:563 | a name starting with a letter gives that letter in upper case |
| Profile.GuardsBeforeUpdate | profile.php:59-65 | an empty name or email, or a malformed email, writes nothing and reports its own message; any write needs both fields and a valid email |
| Profile.UpdateStoresName | profile.php:67-79 | a session change comes only with a successful UPDATE of the user's own row, sets user_name to the new name, and reports success exactly when the reload works |
| Profile.UpdateWithNameColumn | profile.php:67-79 | with a name column, a valid update succeeds, the reloaded row holds the new name and email and the avatar follows the name |
| Profile.ReloadFindsProfile | profile.php:73-76 | after the UPDATE of an existing user, the SELECT by id finds the row with the new name and email |
| Profile.UpdateWithoutNameColumn | config.php:121-133 | with the users table as config.php creates it, every valid update fails at the UPDATE, writes nothing and keeps the session |
| Profile.AvatarWithoutNameColumn | profile.php:563 | without a name column no row has a name, so the avatar is always "U" |
| Search.Query | search.php:6 | the query is the trimmed q parameter, or "" without one |
| Search.Like | search.php:30 | the empty pattern matches only the empty string, and a pattern starting with anything but '%' needs a non-empty subject |
| Search.Pattern | search.php:34 | the bound pattern is the query, unescaped, between two '%' |
| Search.LikeAnything | search.php:34 | a lone '%' matches every string |
| Search.LikePrefix | search.php:30 | for a query without wildcards, query + '%' matches exactly the strings that start with the query up to case |
| Search.LikeSuffix | search.php:30 | a leading '%' matches exactly when the rest of the pattern matches some suffix |
| Search.LikeIsSubstring | search.php:30-34 | for a query without wildcards, the pattern matches exactly the strings that contain the query up to case |
| Search.UnderscoreIsWildcard | search.php:34 | an '_' in the query matches any character, so "a_c" finds "ABC", which does not contain it |
| Search.PercentMatchesAll | search.php:34 | the query "%" matches every movie |
| Search.Filter | search.php:28-36 | exactly the rows whose title or description matches, none more often than it is read |
| Search.InsertByRank | search.php:31 | inserting adds exactly the one movie |
| Search.InsertKeepsRanked | search.php:31 | inserting into a ranked list keeps it ranked |
| Search.SortByRank | search.php:31 | the result is ordered by rating, then creation time, both descending, and is a permutation of the rows |
| Search.EmptyQueryAnswersAtOnce | search.php:10-21 | a missing or blank query gives an empty JSON list to AJAX and a redirect home otherwise |
| Search.ZeroQueryIsEmpty | search.php:6-10 | the query " 0 " counts as empty |
| Search.TrimSpacedZero | search.php:6 | trimming " 0 " gives "0" |
| Search.AjaxOnlyForExactlyOne | search.php:7 | JSON is sent only when ajax is exactly "1" |
| Search.ResultsAreRankedMatches | search.php:28-43 | the results are exactly the matching rows, each as often as it is read, in ranked order |
| Search.DatabaseErrorEmptyList | search.php:45-55 | a failing query gives AJAX the error field and an empty list, and the page the error flag |
| Home.Take | index.php:451-452 | LIMIT 8 keeps the first eight rows, or all of them when there are fewer |
| Home.Put | index.php:459 | assigning by id adds at most one card, keeps every other card, and appends a card whose id is new |
| Home.AfterLatest | index.php:457-460 | every card of the first loop is tagged latest, at most one per row |
| Home.AfterPopular | index.php:462-467 | the second loop keeps the cards already there in place and appends only popular rows whose id is not yet a key, tagged popular |
| Home.PutKeepsUnique | index.php:459 | assigning by id never creates a second card for an id |
| Home.LatestUnique | index.php:457-460 | the first loop gives one card per distinct id of the latest rows |
| Home.PutIds | index.php:459 | assigning by id adds the card's id to the keys |
| Home.PopularUnique | index.php:462-467 | the second loop keeps ids unique and adds exactly the popular rows' ids |
| Home.MergedIds | index.php:451-467 | the grid holds one card per id, for exactly the ids of the two limited queries, so at most 16 cards |
| Home.LatestTagWins | index.php:462-467 | a movie in both lists keeps the tag latest, and the latest cards come before all the popular ones |
| Home.LatestInOrder | index.php:457-460 | with distinct ids the latest rows become cards in their own order |
| Home.Listed | index.php:470 | the grid lists the cards in key order |
| Home.KeyedIds | index.php:454-470 | a keyed array lists one card per key |
| Home.PutReplaces | index.php:459 | assigning an existing id replaces its card in place |
| Home.PutPresent | index.php:459 | on the keyed array, assigning an existing key is Put on its list of values |
| Home.ReplaceAtKey | index.php:459 | assigning a key at position j changes only position j of the listing |
| Home.PutAbsent | index.php:459 | on the keyed array, assigning a new key appends it and is Put on the list of values |
| Home.PutLatest | index.php:457-460 | the first while loop builds the keyed array whose listing is AfterLatest |
| Home.AddPopular | index.php:462-467 | the second while loop extends the keyed array as AfterPopular says |
| Home.MergeCards | index.php:451-467 | both loops give the keyed array whose listing is Merged |
| Home.CardPoster | index.php:471-481 | a card's image is its poster_url when non-empty, else the placeholder |
| Home.BadgeIndependentOfTag | index.php:484 | a popular card can lack the Popular badge and a latest card can carry it |
| Home.FiltersPartition | index.php:610 | 'all' shows every card, and each card is shown by exactly one of 'latest' and 'popular' |
| Home.ClickFilter | index.php:600-603 | after a click exactly the clicked button is active |
| Home.ApplyFilter | index.php:607-615 | each card is displayed exactly when the filter is 'all' or names its tag |
| Confirmation.SelectedOrderId | order-confirmation.php:20-28 | the chosen id is never 0: a falsy id from the query string falls back to the session's last order, and a still falsy one means none |
| Confirmation.QueryIdWins | order-confirmation.php:20 | a valid non-zero id in the query string is used over the session |
| Confirmation.SessionIdWithoutQuery | order-confirmation.php:21-23 | without a query id the session's last order is used when its id is not 0 |
| Confirmation.InvalidIdIgnored | order-confirmation.php:20-21 | a query id that is not an integer counts as none |
| Confirmation.OrderById | order-confirmation.php:65-67 | a found order is in the table with that id; none is found only when no order has it |
| Confirmation.JoinRows | order-confirmation.php:62-70 | the join returns only rows of the requested order, and any only when that order belongs to the user |
| Confirmation.ItemsOf | order-confirmation.php:70 | one line per joined row with its movie and quantity |
| Confirmation.OrderHeaderAsWritten | order-confirmation.php:113-118 | as written the order number is the first item's id |
| Confirmation.OrderHeader | order-confirmation.php:113-118 | the intended order block: the number is the order's id (as written it is the first item's id), with the first row's total and a known status name |
| Confirmation.OrderNumberShowsItemId | order-confirmation.php:113-114 | order 7 whose first item has id 12 is shown as order 12 as written, and as 7 by the corrected block |
| Confirmation.OrderNumberIsOrderId | order-confirmation.php:62-118 | with the corrected block the number shown is the order the rows belong to |
| Confirmation.FallbackItems | order-confirmation.php:83-104 | the two fallback loops list one line of quantity 1 per row of the IN query, and nothing for an empty or unset cart |
| Confirmation.HandleConfirmation | order-confirmation.php:10-125 | the request computes ConfirmSpec and only reads the tables |
| Confirmation.ItemsOnlyForOwner | order-confirmation.php:62-110 | a page is shown only for a signed-in user and the order the request selects, and only when that order is the user's own or the session's last order, the latter with status completed |
| Confirmation.OthersOrderRedirects | order-confirmation.php:106-109 | another user's order not remembered by the session sends the visitor home |
| Confirmation.JoinAsWrittenGoesHome | order-confirmation.php:62-70 | with the movies table as config.php creates it, the join names a missing column, so every request with an order id goes home with the error message |
| Confirmation.JoinRowsListsItem | order-confirmation.php:62-70 | every stored item of the user's order whose movie exists appears in the join |
| Confirmation.JoinIntendedShowsOwnOrder | order-confirmation.php:62-118 | with the column present, the user's own order is shown under its number and lists each of its items whose movie exists |
| Confirmation.FallbackAfterCheckoutIsEmpty | order-confirmation.php:72-105 | after a checkout, which empties the cart, the fallback shows the remembered total and no items |
| SearchClient.JsTrimLeft | assets/js/search.js:40 | the result is a suffix of the input that starts with a non-space |
| SearchClient.JsTrimRight | assets/js/search.js:40 | the result is a prefix of the input that ends with a non-space |
| SearchClient.JsTrim | assets/js/search.js:40 | the result is no longer than the input and starts and ends with a non-space |
| SearchClient.JsTrimIdempotent | assets/js/search.js:40 | trimming twice is trimming once |
| SearchClient.GatingAgrees | assets/js/search.js:39-73 | focus and input look up exactly when the trimmed value has at least two characters, input hides the list otherwise and submit is blocked otherwise; a looked-up term is the trimmed value and trims to itself |
| SearchClient.HitOf | assets/js/search.js:107-116 | a hit carries the card's title, image and price |
| SearchClient.ClientHits | assets/js/search.js:97-121 | at most one hit per card |
| SearchClient.ClientHitsAreMatchingCards | assets/js/search.js:102-118 | every hit comes from a linked card whose title contains the term ignoring case, and every such card gives a hit |
| SearchClient.ClientSearch | assets/js/search.js:97-121 | the forEach over the cards collects exactly ClientHits, in page order |
| SearchClient.LowerContainsIsIgnoringCase | assets/js/search.js:100-106 | lower-casing both sides then testing includes is the server's case-insensitive containment |
| SearchClient.ClientAgreesWithServerOnTitles | assets/js/search.js:106 | for a term without SQL wildcards, a linked card matches on the page exactly when its title matches search.php's LIKE pattern |
| SearchClient.ImageOf | assets/js/search.js:140 | the image is never empty, and is the hit's own image when it has one |
| SearchClient.ItemsOfHits | assets/js/search.js:133-140 | one item per hit, in order, linking to movie.php?id= and the hit's id |
| SearchClient.ItemsOfMovies | assets/js/search.js:133-140 | one item per movie of the JSON answer, in order, with its id link, title and poster or placeholder |
| SearchClient.Display | assets/js/search.js:124-131 | displaying always shows the dropdown, and shows "No movies found" exactly for an empty list |
| SearchClient.ServerOnlyWithoutClientHit | assets/js/search.js:78-83 | when a card on the page matches, the dropdown lists the page's hits whatever the server, the network and the previous dropdown would do |
| SearchClient.FetchListsServerMatches | assets/js/search.js:86-90 | without a hit on the page, the dropdown lists exactly the movies search.php finds for the term, in its ranked order |
| SearchClient.ServerErrorsShowNothingFound | assets/js/search.js:89-93 | a server-side database error shows "No movies found", and a failed fetch leaves the dropdown as it was |
| SearchClient.FirstActive | assets/js/search.js:226-235 | -1 exactly when no item is active, otherwise the first active item |
| SearchClient.Selected | assets/js/search.js:260-282 | one flag per item |
| SearchClient.FirstActiveOfSelected | assets/js/search.js:226-235 | after selecting item i, the active item found is i |
| SearchClient.NextIndex | assets/js/search.js:241 | ArrowDown moves to the next item, wrapping from the last to the first, and from none to the first |
| SearchClient.PrevIndexAsWritten | assets/js/search.js:249 | the index stays within the list |
| SearchClient.PrevIndex | assets/js/search.js:249 | the index stays within the list |
| SearchClient.ArrowUpFromNothingAsWritten | assets/js/search.js:249 | with three items and none active, ArrowUp as written selects the second item, while the corrected step selects the last |
| SearchClient.PrevIndexAsWrittenDiffers | assets/js/search.js:249 | the written step differs from the corrected one exactly when no item is active and there are at least two items, where it selects the next to last |
| SearchClient.PrevNextInverse | assets/js/search.js:241-249 | the corrected ArrowUp and ArrowDown undo each other, and from none they select the last and the first |
| SearchClient.KeySpec | assets/js/search.js:219-258 | a key keeps the number of flags |
| SearchClient.FindActive | assets/js/search.js:226-235 | the loop finds FirstActive of the flags |
| SearchClient.UpdateActiveItem | assets/js/search.js:260-282 | exactly the item at the index is active afterwards |
| SearchClient.Hover | assets/js/search.js:186-193 | hovering makes exactly the hovered item active |
| SearchClient.HandleKey | assets/js/search.js:219-258 | the keydown handler leaves the flags and the opened URL as KeySpec says |
| SearchClient.ArrowsSelectExactlyOne | assets/js/search.js:238-251 | after an arrow key on a shown list exactly one item is active |
| SearchClient.ArrowsUndoEachOther | assets/js/search.js:238-251 | ArrowDown then ArrowUp, and ArrowUp then ArrowDown, return to the active item |
| SearchClient.EnterOpensSelected | assets/js/search.js:254-257 | Enter on an active item opens its URL and changes no flag |
| SearchClient.OnlyEnterOnActiveOpens | assets/js/search.js:219-258 | keys other than the arrows change no flag, and a URL is opened exactly for Enter on a shown list with an active item |
| SearchClient.KeysIgnoredWhenHidden | assets/js/search.js:222-224 | with no items or the dropdown hidden, no key has any effect |

## Left out

- HTML, CSS and Bootstrap markup, and everything the pages only render: the model stops at the values a page would print.
- The PDO connection and the schema creation in config.php and order-confirmation.php:31-59: the tables exist as config.php creates them, with its foreign keys and without a UNIQUE key on the watchlist.
- The movie_categories and categories tables are not created in config.php. They are modelled as the two-column relation the admin pages use.
- SQL text, collation and LIKE escaping: matching is ASCII case-insensitive containment with `%` and `_` in the term taken literally as wildcards, and text beyond ASCII is not case-mapped (neither by MySQL nor by JavaScript `toLowerCase`).
- The order of search results with equal rating and equal creation time is left to the database and is not fixed by the model.
- The rows of the `IN (...)` query in order-confirmation.php:90 are a parameter, because MySQL returns them in no promised order.
- `password_hash`, `password_verify`, `filter_var(FILTER_VALIDATE_EMAIL)` and `hash_equals`: these foreign library calls are parameters (a hash, a check and an email predicate), and `hash_equals` is string equality.
- `random_bytes(32)`: the 32 bytes it draws are the parameter of `Config.IncludeConfig`, which stores their `bin2hex` text.
- A request to a page that includes config.php is `Config.IncludeConfig` followed by the page's handler. The handlers take the session as it is after that step; since the step only sets an unset `csrf_token`, which no handler writes, the two compose.
- MySQL's string-to-number comparison (`Store.SqlIntKey`): the value is exact, where MySQL converts to a double, so ids beyond 2^53 and exponents beyond the double range are not modelled; trailing characters after the number are ignored, as MySQL does outside strict SQL mode; the error strict mode can raise for them is not modelled.
- The rows of profile.php's order-history query (profile.php:31-40): only whether that query fails is modelled, not the list it renders.
- `getCurrentUser`, `formatPrice` and `getDBConnection` in config.php: a lookup, number formatting and connection memoising with no rule worth proving.
- Floating point: prices are integer cents and ratings integer tenths. Form numbers are parsed exactly and rounded half up to the DECIMAL columns, and the 7% tax is computed on cents.
- Php.IntCast: covers leading whitespace, a sign and decimal digits, not exponent notation or PHP's integer overflow to float.
- Php.IsNumeric: does not accept exponent notation such as "1e3".
- Integer widths: ids and counts are unbounded integers, and `lastInsertId()` is taken as the integer id rather than PHP's numeric string.
- `strlen` counts bytes; the model counts characters, which agree on ASCII input only.
- The guards written `role_id !== 1` use `Config.IsAdmin`, which is the loose `== 1`: role ids are modelled as integers, where the two agree, so a string "1" in the session is not modelled.
- File-system effects (`mkdir`, `move_uploaded_file`, `file_exists`, `unlink`): only the decisions are modelled, namely extension, size, precedence, stored name and whether the old poster is deleted. The outcome of the move is a parameter.
- The clock: the current year, the upload timestamp and the seven-day "new" badge take the time as a parameter, and `created_at` values are given.
- Redirects and `exit`: a handler returns where it would redirect and stops; the login redirect target is passed through verbatim.
- Dashboard statistics and listing queries (admin/dashboard.php:87-89, 112-128): counts and a sorted listing computed by SQL. The listing is a parameter of the featured and table rules.
- The DOM in assets/js/search.js: styling, scrolling, the debounce timer, `fetch`, `encodeURIComponent`, event wiring, hiding on an outside click and the price text. The page's cards, the JSON answer and the key pressed are parameters.
- SearchClient.HandleKey: uses the corrected ArrowUp step `PrevIndex`. The step as written is `PrevIndexAsWritten` (see Findings).
- SearchClient.KeySpec: takes the same corrected ArrowUp step `PrevIndex` as HandleKey, so from no active item it selects the last item, not the one before it.
- EditMovie.HandleEditMovie: a GET page starts with the intended notice `InitialMessage`. As written, admin/edit_movie.php:69 resets the message to '' before rendering, so no notice is ever shown (`InitialMessageAsWritten`, `AddedNoticeLost`; see Findings).
- EditMovie.GetShowsStoredMovie: its clause on the notice states the intended page. As written the message of every GET page is empty.
- Confirmation.HandleConfirmation: the order block is the intended `OrderHeader`, whose number is the order id. As written, order-confirmation.php:114 shows the first order item's id (`OrderHeaderAsWritten`, `OrderNumberShowsItemId`; see Findings).
- Confirmation.ItemsOnlyForOwner: its second clause ties the shown order number to the owned order's id, which holds for the intended `OrderHeader` only. Its first clause, about the selected order id, holds for the page as written too.
- MovieForm.SlugProperties: the example "The Matrix: Reloaded!" to "the-matrix-reloaded" is not proved on the literal, because the solver runs out of resource unfolding it. The same steps are proved on arbitrary letters: punctuation dropped, spaces hyphenated, letters lowered.
- includes/process/payment.php, logout.php, movie.php, watchlist.php and orders.php are not part of this model: a payment SDK wrapper, session teardown and read-only views.
- Concurrency, session locking and double submission: each request is one sequential method call.

## Findings

| source | as written | input that shows it | evidently intended | confidence | as-written member | corrected member |
|---|---|---|---|---|---|---|
| config.php:271-285 | `getCartCount` reads `global $pdo`, which config.php never assigns (it assigns `$db`), so calling `prepare` on null is a fatal error outside the try | any logged-in session | count the items of the user's pending orders, 0 on a query failure | not executed | Config.CartCountAsWrittenFails | Config.CartCount |
| config.php:287-307 | `saveOrderHistory` reads the unassigned `global $pdo`, so it fails before any write | any order id and status | append one history row and set the order's status in one transaction | not executed | Config.SaveOrderHistoryAsWrittenFails | Config.HistoryAgreesWithStatus |
| config.php:222-229 | the watchlist table is created without a UNIQUE (user_id, movie_id) key, so the later `CREATE` that declares one never runs and the duplicate-key branch is dead | adding the same movie twice for one user | the second add reports "already in your watchlist" and keeps one row | not executed | Watchlist.AddTwiceAsWrittenDuplicates | Watchlist.AddTwiceKeepsOneRow |
| checkout.php:130 | the cart display selects a `thumbnail` column that the movies table lacks, so every lookup throws and the list is empty | a cart holding one existing movie | list each cart movie with its price | not executed | Checkout.DisplayAsWrittenIsEmpty | Checkout.DisplayIntendedListsCart |
| order-confirmation.php:61-67 | the item query selects `m.thumbnail`, which the movies table lacks, so it throws and the page redirects home with an error | a logged-in user viewing their own order | show the user's own order and its items | not executed | Confirmation.JoinAsWrittenGoesHome | Confirmation.JoinIntendedShowsOwnOrder |
| order-confirmation.php:113-114 | the order number is `$order_items[0]['id']`, the id of the first order item, because the query selects `oi.*` | order 7 whose first item has id 12 shows number 12 | show the order's own id | not executed | Confirmation.OrderNumberShowsItemId | Confirmation.OrderNumberIsOrderId |
| admin/edit_movie.php:26-70 | the "added successfully" message set from `?success=added` is reset to '' before the page renders | a redirect from add_movie.php with success=added | show the notice after adding a movie | not executed | EditMovie.AddedNoticeLost | EditMovie.InitialMessage |
| profile.php:68 | the UPDATE sets a `name` column that the users table lacks, so every profile update throws and nothing changes | a valid name and email | store the new name and email and update the session | not executed | Profile.UpdateWithoutNameColumn | Profile.UpdateWithNameColumn |
| assets/js/search.js:249 | ArrowUp computes `(activeIndex - 1 + n) % n` from `activeIndex == -1`, landing on n-2 | three items, none active: ArrowUp selects the second | select the last item, as ArrowDown from none selects the first | not executed | SearchClient.ArrowUpFromNothingAsWritten | SearchClient.PrevNextInverse |
