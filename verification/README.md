# Doctor reviews and the async posts exercises, in Dafny

This project models the data logic of two JavaScript programs from one
repository of learning exercises:

- **The doctor-review app** (`Final/doctor-react/src`). This is a React Native
  application where signed-in users rate doctors. The model covers:
  - the registration and login form checks;
  - the doctor list search, specialty filter and sort;
  - the review filter, sort and delete rules of a doctor's page, and the
    rule that only the author may edit or delete a review;
  - adding a review, which appends it and recomputes the doctor's rating
    and review count;
  - the profile statistics;
  - the star widget, the review list's doctor names and the initials
    avatar;
  - the authentication context, as a state machine over a key-value store.
- **The async exercises** (`3/`). The model covers `retryOperation` and the
  functions that post-process fetched posts and users:
  - recent posts;
  - title search;
  - posting statistics with the top poster;
  - active users;
  - a user together with their posts;
  - lookup by e-mail.

Everything is pure, immutable data. Anything the JavaScript receives from a
fetch, from storage or from the clock is a parameter:

- A fetched array is a `Result<seq<T>>`, and a failed fetch is `Err`.
- Ids and timestamps produced by `Date.now()` are arguments.
- `JSON.parse` of stored text is a function argument, `parseRaw`.

`retryOperation` takes the operation as the outcome of each numbered
attempt. Instead of sleeping, it returns the back-off delays it would wait.

A JavaScript `Array.prototype.sort` call is modelled as a stable insertion
sort. It is driven by "a goes before b" = `compare(a, b) < 0`
(`Lists.Sort`). For a comparator that is a strict weak order, the stable
sort is unique, so this is the result ECMAScript 2019 and later require.
The modules are:

- `Common`, `Lists` and `Text`: shared definitions. `Text` holds the string
  built-ins that are used: `\s`, `trim`, `toLowerCase`, `includes`,
  `split`/`join`, and number printing.
- `Api` and `Entities`: the records.
- One module per source file modelled.

## Model

| member | source | states |
|---|---|---|
| Validation.ValidateEmail | Final/doctor-react/src/utils/validation.js:1-4 | true exactly when the string matches `^[^\s@]+@[^\s@]+\.[^\s@]+$` read literally; an accepted address has exactly one '@', not at the start, and no white space |
| Validation.EmailDecision | Final/doctor-react/src/utils/validation.js:2-3 | the first-'@' decision procedure and the pattern agree in both directions |
| Validation.ErrorMap | Final/doctor-react/src/utils/validation.js:11-33 | the `errors` object holds a field exactly when that field's check produced a message, and holds that message |
| Validation.ValidateRegistration | Final/doctor-react/src/utils/validation.js:10-35 | each field is checked on its own: e-mail errs iff it fails `validateEmail` ("required" when empty, else "malformed"); password errs iff its JavaScript `length` (UTF-16 code units) is below 6 ("required" when empty, else "too short"); confirmation errs iff empty or different; `isValid` iff the map is empty iff all three pass |
| Validation.ValidateLogin | Final/doctor-react/src/utils/validation.js:37-54 | same e-mail rule; the password errs only when empty; no `confirmPassword` key ever; `isValid` iff the map is empty |
| Validation.ValidatePassword | Final/doctor-react/src/utils/validation.js:6-8 | a password is valid iff its `length` in UTF-16 code units is at least 6; six characters always suffice, fewer than three never do, and a valid one is never empty |
| Validation.PasswordRuleIsLengthOnly | Final/doctor-react/src/utils/validation.js:6-8 | validity depends only on the code-unit length: extending a valid password keeps it valid, and equal `length`s get equal verdicts |
| Validation.AstralPasswordAccepted | Final/doctor-react/src/utils/validation.js:7 | three emoji have `length` 6 and pass, with no password error at registration, while "abc" fails |
| Validation.LoginHasNoLengthRule | Final/doctor-react/src/utils/validation.js:19-29 | a short non-empty password passes login but fails registration, and a mismatch is still reported beside the length error |
| Retry.Backoffs | 3/utils.js:55-59 | the delay after failed attempt k is 2^k * 100 ms |
| Retry.Loop | 3/utils.js:47-64 | from any attempt on, the loop stops at the first success with its value, waits only between attempts, and rejects naming the last failure |
| Retry.RetryOperation | 3/utils.js:44-65 | at most `retries` invocations; a success is the value of the first successful attempt after failures only; a rejection follows `retries` failures and names `retries` and the last message; delays 200, 400, … with none after the final attempt; `retries < 1` rejects without invoking |
| Retry.RetryWithDefault | 3/utils.js:44 | the default is three attempts, and exhaustion waits 200 then 400 ms |
| Retry.SucceedsAt | 3/utils.js:47-60 | first success at attempt k ≤ retries: exactly k invocations, k−1 delays, attempt k's value |
| Retry.ExhaustsAll | 3/utils.js:47-64 | all attempts fail: `retries` invocations, `retries − 1` delays, one error with the last message |
| Retry.NeverInvokedBelowOne | 3/utils.js:47-64 | `retries < 1`: no invocation, no delay, and still a rejection, because `lastError` is undefined |
| Retry.BackoffsTotal | 3/utils.js:57 | the first n delays sum to 100 * (2^(n+1) − 2) |
| Retry.ExhaustedWaitTotal | 3/utils.js:55-64 | when every attempt fails, the total wait is 100 * (2^retries − 2) ms |
| Retry.Message | 3/utils.js:64 | an exhausted run's message starts with "Все " and ends with the last failure's message; with no attempt the message is the TypeError of reading `message` of undefined |
| Retry.ExhaustedMessage | 3/utils.js:52-64 | the digits right after "Все " are the attempt count printed in decimal and read back as it, and the message ends with the last failure's message |
| Retry.FailTwiceThenSucceed | 3/utils.js:47-60 | fail, fail, succeed with three attempts: three invocations, 600 ms of waiting, the third value |
| OrderFunctions.SliceEnd | 3/orderFunctions.js:20 | `slice(0, limit)` keeps min(limit, length) items, and a negative limit counts from the end |
| OrderFunctions.RecentPosts | 3/orderFunctions.js:11-28 | `[]` on a failed fetch; otherwise `SliceEnd` many posts drawn from the input, in non-increasing id order, none of them with a smaller id than a post left out |
| OrderFunctions.RecentPostsDefault | 3/orderFunctions.js:11 | without a limit, min(5, number of posts) posts |
| OrderFunctions.RecentPostsStrictlyDescending | 3/orderFunctions.js:17 | with distinct ids the result is in strictly descending id order |
| OrderFunctions.PostsByTitleSearch | 3/orderFunctions.js:35-52 | `[]` on a failed fetch; otherwise exactly the posts whose lower-cased title contains the lower-cased term, with their multiplicities, in input order |
| OrderFunctions.EmptyTermMatchesAll | 3/orderFunctions.js:41-44 | the empty term returns every post unchanged |
| OrderFunctions.CountsInUserOrder | 3/orderFunctions.js:73-80 | one entry per user, in user order, counting the posts with that user's id |
| OrderFunctions.PostsStats | 3/orderFunctions.js:58-107 | a users error wins, then a posts error; no users rejects with the TypeError of reading `topPoster.userId`; otherwise totals are the lengths, the average is posts/users, `postsByUser` is the entries sorted by count (a permutation of the per-user entries), and `topPoster` is the first entry with its fields renamed |
| OrderFunctions.PostsByUser | 3/orderFunctions.js:82 | one entry per user, a permutation of the per-user counts, in non-increasing count order |
| OrderFunctions.PostsByUserEntries | 3/orderFunctions.js:73-80 | every `postsByUser` entry is some user's entry with that user's exact post count, so posts of unknown users are counted nowhere |
| OrderFunctions.PostsByUserOrder | 3/orderFunctions.js:82-93 | the in-place sort leaves `postsByUser` in non-increasing count order, and entries with equal counts keep the order of `users` |
| OrderFunctions.TopPosterMaximal | 3/orderFunctions.js:82-92 | no user has more posts than `topPoster` |
| OrderFunctions.TopPosterEarliest | 3/orderFunctions.js:82-92 | `topPoster` is the entry of the earliest user with the largest count: every earlier user has strictly fewer posts |
| UserFunctions.ActiveUsers | 3/userFunctions.js:10-24 | `[]` on a failed fetch; otherwise exactly the users with an even id, with their multiplicities, in input order |
| UserFunctions.ActiveUsersIdempotent | 3/userFunctions.js:16 | filtering the active users again changes nothing |
| UserFunctions.PostCards | 3/userFunctions.js:55-59 | one projection per post, same order and length, carrying that post's id, title and body |
| UserFunctions.UserWithPostsOf | 3/userFunctions.js:31-69 | a posts error is rethrown; a missing user rejects with "not found"; otherwise the user is projected to id, name, email and username, and `postCount` equals the number of posts and of projections |
| UserFunctions.NotFoundNamesId | 3/userFunctions.js:42 | the not-found message contains the requested id |
| UserFunctions.PostCardsInjective | 3/userFunctions.js:55-59 | the projection loses nothing of id, title and body |
| UserFunctions.UserByEmail | 3/userFunctions.js:76-97 | null on a failed fetch; otherwise null iff no e-mail equals the query case-insensitively, else the first user whose e-mail does |
| UserFunctions.UserByEmailIgnoresCase | 3/userFunctions.js:82-84 | queries that differ only in letter case find the same user |
| UserFunctions.UserByEmailFindsListed | 3/userFunctions.js:82-88 | looking up any listed user's own e-mail finds a user |
| HomeScreen.NameOrderIsStrictWeakOrder | Final/doctor-react/src/screens/HomeScreen.js:47 | the name comparator is a strict weak order, so sorting by it is well defined |
| HomeScreen.VisibleDoctors | Final/doctor-react/src/screens/HomeScreen.js:26-56 | a doctor is shown iff it passes the search and the specialty filter; the result is a permutation of the filtered list; it is ordered by rating, name or experience as selected, and an unknown option keeps the filtered order |
| HomeScreen.Filtered | Final/doctor-react/src/screens/HomeScreen.js:29-40 | the two filters together keep, in order, exactly the doctors that pass both the search and the specialty test |
| HomeScreen.FiltersCompose | Final/doctor-react/src/screens/HomeScreen.js:29-40 | the search filter and then the specialty filter keep the same doctors as the combined test |
| HomeScreen.SortOrder | Final/doctor-react/src/screens/HomeScreen.js:42-53 | each sort option yields its order, and the default case leaves any list unchanged |
| HomeScreen.NoFiltersShowAll | Final/doctor-react/src/screens/HomeScreen.js:29-40 | an empty query with "all specialties" and no known sort shows the list as it is |
| DoctorDetail.DoctorReviews | Final/doctor-react/src/screens/DoctorDetailScreen.js:43-44 | exactly the reviews of the page's doctor, with multiplicities, in stored order |
| DoctorDetail.SortReviews | Final/doctor-react/src/screens/DoctorDetailScreen.js:50-67 | a permutation of its input, in the date or rating order selected; the default case keeps the order |
| DoctorDetail.ReviewSortOrder | Final/doctor-react/src/screens/DoctorDetailScreen.js:52-65 | each comparator case produces its order |
| DoctorDetail.SortReviewsIdempotent | Final/doctor-react/src/screens/DoctorDetailScreen.js:50-67 | re-sorting already sorted reviews with the same option changes nothing |
| DoctorDetail.SortOfSorted | Final/doctor-react/src/screens/DoctorDetailScreen.js:52 | the stable sort leaves a list that is already in order unchanged |
| DoctorDetail.ShownReviews | Final/doctor-react/src/screens/DoctorDetailScreen.js:37-48 | the shown reviews are exactly the doctor's reviews, as a permutation |
| DoctorDetail.DeleteReview | Final/doctor-react/src/screens/DoctorDetailScreen.js:96-98 | removes exactly the reviews with the id; every other review keeps its multiplicity and relative order |
| DoctorDetail.DeleteCount | Final/doctor-react/src/screens/DoctorDetailScreen.js:97 | kept plus removed reviews account for the whole list |
| DoctorDetail.DeleteAbsent | Final/doctor-react/src/screens/DoctorDetailScreen.js:97 | deleting an id nobody has changes nothing |
| DoctorDetail.Actions | Final/doctor-react/src/screens/DoctorDetailScreen.js:204-212 | edit and delete are offered iff a user is signed in and is the review's author; they target that review and its id |
| DoctorDetail.DeleteOffered | Final/doctor-react/src/screens/DoctorDetailScreen.js:208-211 | an offered delete is the signed-in author's, removes that review, and with distinct review ids removes nothing else |
| DoctorDetail.DeleteUniqueId | Final/doctor-react/src/screens/DoctorDetailScreen.js:96-98 | among reviews with distinct ids, deleting a stored review's id removes exactly one copy of it |
| DoctorDetail.AddReview | Final/doctor-react/src/screens/DoctorDetailScreen.js:74-80 | with no user it alerts "sign in required"; otherwise it navigates with the doctor's id and, when the doctor is loaded, its name |
| DoctorDetail.CountNoun | Final/doctor-react/src/screens/DoctorDetailScreen.js:136 | singular "отзыв" iff the count is 1, "отзывов" otherwise |
| DoctorDetail.CountLabel | Final/doctor-react/src/screens/DoctorDetailScreen.js:136 | the label is the printed count, a space, and the noun |
| DoctorCard.FirstChars | Final/doctor-react/src/components/DoctorCard.js:15 | one character per non-empty segment; empty segments add nothing |
| DoctorCard.Initials | Final/doctor-react/src/components/DoctorCard.js:15 | as many initials as non-empty space-separated segments, no longer than the name, and no space among them |
| DoctorCard.WordStarts | Final/doctor-react/src/components/DoctorCard.js:15 | the characters that follow a space or the start are no more than the name and hold no space |
| DoctorCard.SegmentsAreWordStarts | Final/doctor-react/src/components/DoctorCard.js:15 | the first characters of the split segments are exactly the characters that start a word |
| DoctorCard.InitialsAreWordStarts | Final/doctor-react/src/screens/DoctorDetailScreen.js:125 | the initials, also shown on the doctor's page, are the word-starting characters of the name in order |
| AddReview.NewReview | Final/doctor-react/src/screens/AddReviewScreen.js:41-50 | the new review carries the doctor, the user's id and e-mail, the rating, the trimmed comment, and a null visit date exactly when none was entered |
| AddReview.Recounted | Final/doctor-react/src/screens/AddReviewScreen.js:58-62 | given at least one review of the doctor, its count becomes the number of its reviews (so at least 1) and its rating their mean; other fields are unchanged |
| AddReview.FirstWithIdUnique | Final/doctor-react/src/screens/AddReviewScreen.js:56 | `find` picks one doctor: the first with the id is unique |
| AddReview.UpdateDoctors | Final/doctor-react/src/screens/AddReviewScreen.js:55-64 | doctors are re-saved iff one has the id; then only the first such doctor is recounted and every other entry is unchanged |
| AddReview.UpdateDoctorsAt | Final/doctor-react/src/screens/AddReviewScreen.js:56-63 | the doctor `find` returns is the one recounted, and every other entry is written back unchanged |
| AddReview.Submit | Final/doctor-react/src/screens/AddReviewScreen.js:26-75 | rating 0 is rejected first, then a blank comment; without a user the save fails; otherwise the stored reviews are the old ones plus exactly the new review, and the doctors are updated as above |
| AddReview.NewReviewIsCounted | Final/doctor-react/src/screens/AddReviewScreen.js:58 | the doctor's review count after adding is one more than before |
| AddReview.CountAfterSubmit | Final/doctor-react/src/screens/AddReviewScreen.js:55-64 | after a save the matched doctor's `reviewsCount` is its previous number of reviews plus one, whatever the old field held |
| AddReview.RatingStaysInRange | Final/doctor-react/src/screens/AddReviewScreen.js:59-61 | with every rating in 1..5 the recomputed rating stays in [1, 5], with no division by zero |
| Profile.UserReviews | Final/doctor-react/src/screens/ProfileScreen.js:34 | exactly the user's reviews, each with its stored multiplicity, in stored order |
| Profile.LoadUserReviews | Final/doctor-react/src/screens/ProfileScreen.js:26-45 | nothing happens without a user; otherwise the list is the user's reviews, and the statistics become count and mean only when that list is non-empty |
| Profile.NoReviewsKeepsZeroStats | Final/doctor-react/src/screens/ProfileScreen.js:21-44 | a user with no reviews keeps the initial {0, 0} statistics |
| Profile.AverageInRange | Final/doctor-react/src/screens/ProfileScreen.js:38-42 | with ratings in 1..5 the average lies in [1, 5] |
| StarRating.Stars | Final/doctor-react/src/components/StarRating.js:36-44 | `maxRating` stars (none for a non-positive maximum); star i is filled iff i < rating |
| StarRating.DefaultStars | Final/doctor-react/src/components/StarRating.js:19-39 | with the default maximum there are five stars, star i filled iff i < rating |
| StarRating.DefaultsShowNoStar | Final/doctor-react/src/components/StarRating.js:19-39 | with both defaults the widget draws five empty stars |
| StarRating.Ceil | Final/doctor-react/src/components/StarRating.js:39 | the least integer not below the rating |
| StarRating.FilledPrefix | Final/doctor-react/src/components/StarRating.js:39 | a run of filled stars followed by empty ones counts as its length |
| StarRating.FilledCount | Final/doctor-react/src/components/StarRating.js:39 | the number of filled stars is ceil(rating) clamped to [0, maxRating] |
| StarRating.Press | Final/doctor-react/src/components/StarRating.js:27-31 | a press reports index + 1 iff the widget is enabled and has a callback |
| StarRating.PressThenShow | Final/doctor-react/src/components/StarRating.js:27-40 | pressing star i reports a rating in [1, maxRating] that fills exactly stars 0..i |
| ReviewList.DoctorById | Final/doctor-react/src/components/ReviewList.js:17 | some doctor has the id iff one is found, and the found one is a doctor with that id |
| ReviewList.DoctorNames | Final/doctor-react/src/components/ReviewList.js:13-23 | the map has an id iff some review refers to it and some doctor has it; its value is the first such doctor's name |
| ReviewList.DisplayName | Final/doctor-react/src/components/ReviewList.js:35 | the fallback "Врач" is shown iff the name is missing or empty, or is itself "Врач" |
| ReviewList.ShownName | Final/doctor-react/src/components/ReviewList.js:16-35 | a review whose doctor is unknown shows the fallback; otherwise it shows the first matching doctor's non-empty name |
| ReviewList.Repeat | Final/doctor-react/src/components/ReviewList.js:38 | for rating ≥ 0, that many '★'; a negative count is the RangeError |
| ReviewList.Items | Final/doctor-react/src/components/ReviewList.js:27-39 | one item per review in order, with its display name and, as star string, exactly `'★'.repeat(rating)`; a negative rating anywhere aborts the list |
| Auth.PasswordKey | Final/doctor-react/src/context/AuthContext.js:44 | the password key starts with "user_" |
| Auth.RegisterKeysNotScanned | Final/doctor-react/src/context/AuthContext.js:43-56 | neither key that `register` writes passes `login`'s key filter |
| Auth.Scanned | Final/doctor-react/src/context/AuthContext.js:56 | a key is scanned iff it starts with "user_" and `_password` occurs nowhere in it |
| Auth.Check | Final/doctor-react/src/context/AuthContext.js:59-67 | one iteration matches iff the parsed record's e-mail is exactly the given one and the value under its password key is exactly the password; it throws iff the stored text fails to parse |
| Auth.Scan | Final/doctor-react/src/context/AuthContext.js:58-68 | the first key whose iteration does not skip decides; all skipping means no match |
| Auth.Login | Final/doctor-react/src/context/AuthContext.js:53-74 | a failure changes nothing; a success stores the matched record under `user` and signs it in; if every scanned key skips, the error is "Неверный email или пароль"; without parse errors, success iff some scanned key matches |
| Auth.WrongPasswordContinues | Final/doctor-react/src/context/AuthContext.js:60-67 | an e-mail match with the wrong password moves on to the next key |
| Auth.Register | Final/doctor-react/src/context/AuthContext.js:35-51 | writes exactly `user` and `user_<id>_password` and keeps every other key; the record holds exactly id, e-mail, creation date and a null avatar |
| Auth.LoginAfterRegisterFails | Final/doctor-react/src/context/AuthContext.js:43-69 | on a store with no scanned key, logging in right after registering fails with the fixed error, whatever is entered |
| Auth.RecordKey | Final/doctor-react/src/context/AuthContext.js:56 | the record key has the prefix `login` scans |
| Auth.RecordKeyScanned | Final/doctor-react/src/context/AuthContext.js:38-56 | for a numeric id, `user_<id>` passes `login`'s key filter |
| Auth.RegisterWithRecord | Final/doctor-react/src/context/AuthContext.js:35-51 | corrected `register`: additionally stores the record under `user_<id>`; it otherwise writes what `register` writes |
| Auth.LoginAfterRegisterWithRecordSucceeds | Final/doctor-react/src/context/AuthContext.js:53-66 | after the corrected register, a login with the same e-mail and password succeeds and signs in the registered user |
| Auth.Logout | Final/doctor-react/src/context/AuthContext.js:76-83 | only `user` is removed and no one stays signed in |
| Auth.LogoutKeepsPasswords | Final/doctor-react/src/context/AuthContext.js:78 | password keys survive a logout unchanged |
| Auth.UpdateUser | Final/doctor-react/src/context/AuthContext.js:85-95 | the new user has the union of the fields; updated fields take the new values and all others are kept; it is stored under `user` |
| Auth.LoadUser | Final/doctor-react/src/context/AuthContext.js:22-33 | no `user` key means no user; a stored record is restored as it is; any user restored is what the stored value parses to |
| Auth.SessionSurvivesReload | Final/doctor-react/src/context/AuthContext.js:22-95 | when the signed-in user matches the stored one, `loadUser` restores it, and register, login, logout and `updateUser` all keep the two in step |
| Lists.Insert | 3/orderFunctions.js:17 | inserting into a sorted run adds exactly the one element: length grows by one and the contents gain it |
| Lists.Sort | 3/orderFunctions.js:17 | the sorted array is a permutation of the input |
| Lists.Filter | 3/userFunctions.js:16 | keeps exactly the elements passing the test, with their multiplicities, as a subsequence of the input |
| Lists.FindFirst | 3/userFunctions.js:82-84 | the index found is the first whose element passes; none is found iff no element passes |
| Lists.Find | Final/doctor-react/src/components/ReviewList.js:17 | something is found iff some element passes, and it is the first element that passes |
| Lists.SortStable | 3/orderFunctions.js:82 | the sort keeps elements that compare equal in their input order |
| Lists.SortDescending | 3/orderFunctions.js:17 | a `b.key - a.key` comparator sorts into non-increasing key order and permutes the input |
| Lists.SortAscending | Final/doctor-react/src/screens/DoctorDetailScreen.js:57 | an `a.key - b.key` comparator sorts into non-decreasing key order and permutes the input |
| Lists.SortUnordered | Final/doctor-react/src/screens/HomeScreen.js:50-51 | a comparator that always returns 0 leaves the array as it is |
| Lists.PrefixDominates | 3/orderFunctions.js:20 | cutting a descending list keeps elements that are no smaller than any dropped one |
| Text.Utf16Length | Final/doctor-react/src/utils/validation.js:7 | `length` counts one unit per character plus one more for each character outside the Basic Multilingual Plane: between the character count and twice it, equal to it iff no such character occurs |
| Text.Utf16LengthConcat | Final/doctor-react/src/utils/validation.js:7 | the code-unit length of a concatenation is the sum of the lengths |
| Text.Lower | 3/orderFunctions.js:41-43 | same length, and each character is lowered on its own |
| Text.LowerIdempotent | 3/orderFunctions.js:41-43 | lowering twice is lowering once |
| Text.Includes | 3/orderFunctions.js:43 | `includes` is true iff the needle occurs at some index |
| Text.Trim | Final/doctor-react/src/screens/AddReviewScreen.js:32 | the trimmed text is a contiguous piece of the comment with only white space around it; it is empty iff the comment is all white space, and otherwise neither starts nor ends with white space |
| Text.TrimIdempotent | Final/doctor-react/src/screens/AddReviewScreen.js:47 | trimming twice is trimming once |
| Text.Split | Final/doctor-react/src/components/DoctorCard.js:15 | at least one segment, and no segment contains the separator |
| Text.Join | Final/doctor-react/src/components/DoctorCard.js:15 | the result starts with the first part, followed by the separator when there are more parts; a single part is returned as it is |
| Text.JoinSplit | Final/doctor-react/src/components/DoctorCard.js:15 | `split(' ')` then `join(' ')` restores the name |
| Text.SplitJoin | Final/doctor-react/src/components/DoctorCard.js:15 | joining space-free segments and splitting again restores them |
| Text.DecimalValue | 3/utils.js:64 | the printed count reads back as the count |

## Findings

| source | as written | input that shows it | evidently intended | confidence | as-written member | corrected member |
|---|---|---|---|---|---|---|
| Final/doctor-react/src/context/AuthContext.js:43-56 | `register` stores the record only under `user` and the password under `user_<id>_password`; `login` only reads keys that start with `user_` and do not contain `_password` | a fresh store; register `a@b.c` / `secret1`, then log in with `a@b.c` / `secret1`: the login fails with "Неверный email или пароль" | registering also stores the record under `user_<id>`, so the same credentials log in | high, not executed | Auth.LoginAfterRegisterFails | Auth.LoginAfterRegisterWithRecordSucceeds |

`Auth.Register` is kept as written. `Auth.RegisterWithRecord` is the
corrected operation. `Auth.SessionSurvivesReload` covers both.

## Left out

- `3/api.js` and `3/main.js`: the network requests, HTTP status handling, the console demo, `Math.random` and `process.exit`. A fetch's outcome is an argument. `fetchUserById` returning null on a 404 or on an error becomes the `Option<User>` argument of `UserFunctions.UserWithPostsOf`.
- Timers: `withTimeout`, `simulateLoading` and the timing of `Promise.all`. Retry delays are recorded rather than waited.
- Errors from both fetches: when both fetches of `getPostsStats` fail, the model reports the users error. In real JavaScript, which rejection settles first depends on timing. `getUserWithPosts` has no such case: `fetchUserById` never rejects, because it resolves to null on a 404 or an error. So only the posts error can be reported there.
- `Final/doctor-react/src/utils/storage.js` and JSON text: the app's storage holds records as values. In the auth store, text is parsed by the `parseRaw` argument. `parseRaw` should give `ParseError` for text whose property access throws, such as `"null"`.
- AsyncStorage failures: the catch branches of `register`, `updateUser` and `logout` are not modelled. The model's store operations cannot fail.
- Rendering, navigation and other screens: styles, `AppNavigator.js`, `LoginScreen.js`, `RegisterScreen.js`, `FilterBar.js`, `SearchBar.js`, `Input.js`, `ReviewCard.js`, the edit-review screen, the image picker and `metro.config.js`. They are UI glue.
- The `userReviews` value at `Final/doctor-react/src/screens/DoctorDetailScreen.js:114`: it is computed but never used.
- `2. Javas/` and `4/`: earlier and unrelated exercises, not part of this model.
- OrderFunctions.PostsStats: `averagePostsPerUser` is the exact quotient. The code's `toFixed(2)` rounding followed by `parseFloat` is not modelled. Floating point is out of scope.
- AddReview.Recounted: the rating is the exact mean as a real, not an IEEE double.
- Profile.LoadUserReviews: the average is an exact real, not an IEEE double.
- HomeScreen.NameOrder: `localeCompare` is modelled as code-point lexicographic order. Locale collation, which ICU defines, is not modelled.
- Text.LowerChar: `toLowerCase` is modelled for Basic Latin and basic Cyrillic only. Other characters are left unchanged.
- DoctorCard.Initials: a string is a sequence of code points. `n[0]` on a name whose first character is outside the Basic Multilingual Plane would give half a surrogate pair in JavaScript.
- ReviewList.Repeat: a non-integer or infinite count is not modelled. Ratings are integers.
- StarRating.Stars: a non-integer or NaN `maxRating` is not modelled. Integers are assumed.
- DoctorDetail.SortReviews: review dates are integer timestamps, so `new Date(...)` parsing is not modelled, and neither is an invalid date, which would give NaN. Likewise, no rating, id or experience is NaN.
- Auth.Check: a password stored as a record instead of text is treated as never equal to the password. JSON text of records is not modelled.
- Auth.LoadUser: text that parses to something other than a record is treated as no user. The code would set that value as the user.
- Retry.RetryOperation: a non-integer `retries` is not modelled. The attempt counter compares integers only.
- Retry.RetryOperation: an operation that rejects with `null` or `undefined` is not modelled. Then `error.message` at `3/utils.js:53` throws inside the catch, and the call rejects with a TypeError after one attempt. A failure is always modelled as an error carrying a message.
- StarRating.Stars: the `showRating` label, which prints `rating.toFixed(1)` or "Нет оценки", is not modelled. It is floating-point formatting.
