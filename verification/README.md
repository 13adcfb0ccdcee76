# vegprotein: a Dafny model of the front-end logic and the backend routers

vegprotein is a plant-protein tracker. It has a React front end (sign-up and login
card, Discover page, Dashboard, bottom navigation, route table) and a FastAPI
backend (foods, stores, protein logs, user profile) over SQLAlchemy tables. This
project models the parts that hold logic, as pure Dafny functions over immutable
datatypes, and proves what they promise.

- **Sign-up card** (`SignUp`, signup.dfy): the e-mail and password validators, and
  the step machine with its `Form` state (step, login or sign-up mode, modal
  status, the three inputs). The card's handlers `ProgressStep`, `GoBack`,
  `Submit` and `CloseModal` are gathered into an event machine `Run`. The
  `Enabled` predicate says which events the rendered card accepts: the fieldset
  is disabled while a modal is open, and only the current step's buttons are
  shown. The `onAuth` call becomes a parameter that carries its reply, and the
  timer that turns "loading" into "success" becomes the event `SuccessTimer`.
  `TextLoop`'s index update is `NextIndex`, and `Ticks` iterates it.
- **Discover, Dashboard, navigation, routes** (`Discover`, `Dashboard`,
  `FuturisticNav`, `AppRoutes`): the product search, the favourites toggle,
  category selection, the progress clamp, the protein-per-dollar ranking, the
  active nav index and the indicator position, and the token-guarded route table.
  A `Tab` records the token `App` read at its last render beside the token now in
  localStorage, which is how Login's handlers reach the guard (see Findings).
- **Backend** (`Models`, `Foods`, `Stores`, `ProteinLogs`, `Users`): tables are
  sequences of rows in insertion order. Queries are `Filter`, a descending sort
  and SQLite's `LIMIT`, where a negative limit keeps every row. A FastAPI query
  bound (`le=N`) that is broken gives `Unprocessable`. A missing row gives
  `NotFound` with the router's message. A Python run-time error or a failed
  response validation gives `Internal`.
  - The clock is a parameter. A timestamp is an integer number of seconds, and
    its calendar day is `DayOf(t) = t / 86400`.
- Shared modules: `Wrappers` (Option, Result), `Seqs` (filter, substring search
  with ASCII case folding, sums, `LIMIT`, `findIndex`), `Sorting` (insertion sort
  by a real key, and top-k), `Http` (error responses).

Behaviour modelled as written:
- `protein_goal` is a nullable column. A `PATCH /users/me` that sends
  `"protein_goal": null` stores NULL, because `exclude_unset` keeps explicit
  nulls. From then on, `/users/me`, `/protein-logs/today` and
  `/protein-logs/weekly` answer with a server error (`Users.NullGoalBreaksReplies`).
- The statistics window of `/users/me/stats` starts seven days before today. So
  it covers eight calendar days, plus any log dated in the future
  (`Users.StatsWindowIsWeekPlusOneDay`).
- The nearby-store query compares squared distances with the squared radius
  rather than taking a square root. A store is near when the radius is
  non-negative and the squared distance is at most the squared radius. This is
  equivalent to the source's `sqrt(d²) <= radius`.

## Model

| member | source | states |
|---|---|---|
| SignUp.EmailValidIsRegex | vegprotein-frontend/src/components/ui/sign-up.jsx:181 | the e-mail test holds exactly when some substring is a non-space run, `@`, a non-space run, `.`, a non-space run (the regex `\S+@\S+\.\S+`) |
| SignUp.ScanEmail | vegprotein-frontend/src/components/ui/sign-up.jsx:181 | a single left-to-right scan decides the e-mail regex: it answers true exactly when the e-mail is valid |
| SignUp.Utf16Length | vegprotein-frontend/src/components/ui/sign-up.jsx:182-183 | `.length` counts UTF-16 code units: between one and two per character |
| SignUp.PasswordValidBounds | vegprotein-frontend/src/components/ui/sign-up.jsx:182-183 | at least 6 characters is always a valid password; fewer than 3 never is |
| SignUp.FailureText | vegprotein-frontend/src/components/ui/sign-up.jsx:218 | the failure message is the reply's error when it is present and non-empty, otherwise "Authentication failed"; it is never empty |
| SignUp.Submit | vegprotein-frontend/src/components/ui/sign-up.jsx:198-234 | only the modal and its message change; it is ignored unless the modal is closed and the step is confirm (sign-up) or password (login); in sign-up, mismatched passwords give an error with "Passwords do not match!" and no request; `onAuth` is called exactly when the submit is allowed, the passwords agree and a handler exists; the form reaches loading exactly when the passwords agree and there is no handler or the handler succeeded; a failed reply gives an error with its message; reaching loading keeps the message |
| SignUp.ProgressStep | vegprotein-frontend/src/components/ui/sign-up.jsx:236-249 | from the e-mail step it moves to the password step only for a valid e-mail; with an invalid password nothing changes; with a valid one, sign-up moves to confirm and login submits; on the confirm step nothing happens |
| SignUp.GoBack | vegprotein-frontend/src/components/ui/sign-up.jsx:258-263 | confirm goes back to password and clears the confirmation; password goes back to e-mail; on the e-mail step nothing changes |
| SignUp.CloseModal | vegprotein-frontend/src/components/ui/sign-up.jsx:265-268 | the modal is closed with an empty message and nothing else changes |
| SignUp.InitialInv | vegprotein-frontend/src/components/ui/sign-up.jsx:170-178 | the initial state satisfies the card's invariant |
| SignUp.StepPreservesInv | vegprotein-frontend/src/components/ui/sign-up.jsx:198-268 | every accepted event keeps the invariant: an error modal always has a message and no other modal has one; the confirm step only occurs in sign-up with a valid password; loading or success only follow a valid password, and in sign-up a matching confirmation |
| SignUp.RunPreservesInv | vegprotein-frontend/src/components/ui/sign-up.jsx:198-268 | any sequence of events keeps the invariant |
| SignUp.SuccessOnlyAfterValidInput | vegprotein-frontend/src/components/ui/sign-up.jsx:200-229 | whatever the user does from the initial state, success is only shown with a valid password and, in sign-up, a matching confirmation |
| SignUp.RunCons | vegprotein-frontend/src/components/ui/sign-up.jsx:236-268 | running one event and then the rest is running all of them |
| SignUp.SignUpWithoutHandlerSucceeds | vegprotein-frontend/src/components/ui/sign-up.jsx:212-233 | with no `onAuth` handler, a valid e-mail and password typed, progressed, confirmed and submitted reach success on the confirm step with the inputs kept |
| SignUp.NextIndex | vegprotein-frontend/src/components/ui/sign-up.jsx:38-45 | with `stopOnEnd` the last index stays; otherwise the index moves one on and wraps to 0 after the last; an in-range index stays in range; with no items the result is NaN, except that with `stopOnEnd` the index -1 (the last of none) stays |
| SignUp.Ticks | vegprotein-frontend/src/components/ui/sign-up.jsx:37-47 | after any number of ticks the index is within `[0, n)` |
| SignUp.ModNext | vegprotein-frontend/src/components/ui/sign-up.jsx:43 | `(a + 1) % n` is `a % n + 1`, or 0 when `a % n` is the last index |
| SignUp.TicksCycle | vegprotein-frontend/src/components/ui/sign-up.jsx:43 | without `stopOnEnd`, the index after k ticks is `k % n` |
| SignUp.TicksStop | vegprotein-frontend/src/components/ui/sign-up.jsx:39-42 | with `stopOnEnd`, the index after k ticks is k until it reaches `n - 1` and stays there |
| Discover.FilteredProducts | vegprotein-frontend/src/pages/Discover.jsx:114-122 | an empty query returns the products unchanged; otherwise it keeps exactly the products whose lower-cased name contains the lower-cased query, each as often as it occurs |
| Discover.FilteredProductsKeepsOrder | vegprotein-frontend/src/pages/Discover.jsx:116-119 | filtering distributes over concatenation, so the kept products keep their order |
| Discover.FilteredProductsIgnoresCase | vegprotein-frontend/src/pages/Discover.jsx:118 | a query and its lower-cased form select the same products |
| Discover.ToggleFavorite | vegprotein-frontend/src/pages/Discover.jsx:124-127 | an id that is present is removed everywhere, other ids keep their counts and nothing is added; an absent id is appended; a list without duplicates stays without |
| Discover.ToggleTwice | vegprotein-frontend/src/pages/Discover.jsx:124-127 | toggling an id twice restores the set of favourites, and restores the list when the id was absent |
| Discover.ClickCategory | vegprotein-frontend/src/pages/Discover.jsx:243 | clicking the selected category clears the selection; clicking any other selects it |
| Discover.ClickCategoryTwice | vegprotein-frontend/src/pages/Discover.jsx:243 | two clicks on a category select it exactly when it was selected before |
| Discover.SelectCategory | vegprotein-frontend/src/pages/Discover.jsx:114-122 | selecting a category changes only the selection and never the list of shown products |
| Dashboard.Progress | vegprotein-frontend/src/pages/Dashboard.jsx:20-21 | progress never exceeds 100, is 100 exactly when the goal is between 0 and the consumed 67, is non-negative exactly for a non-negative goal, and for a goal above 67 or below 0 is `67 / goal * 100` |
| Dashboard.InitialProgress | vegprotein-frontend/src/pages/Dashboard.jsx:5 | with the initial goal of 120 the progress is 67/120 of 100 |
| Dashboard.Ranked | vegprotein-frontend/src/pages/Dashboard.jsx:130 | the rows are a permutation of the foods in non-increasing protein-per-dollar order, and the first row has the maximum |
| Dashboard.UniqueBestHeadsRanking | vegprotein-frontend/src/pages/Dashboard.jsx:130-138 | a food strictly better than every other is the highlighted first row |
| Dashboard.BestValueIsFirstRow | vegprotein-frontend/src/pages/Dashboard.jsx:9-18 | of the table's foods, Black Beans at 15.2 per dollar is ranked first, as the "Best Value Today" card claims |
| FuturisticNav.PathsDistinct | vegprotein-frontend/src/components/ui/futuristic-nav.jsx:6-12 | the five items' paths are pairwise distinct |
| FuturisticNav.ActiveIndex | vegprotein-frontend/src/components/ui/futuristic-nav.jsx:19-22 | the active index is in range, points at the item whose path is the current one, and is 0 for an unknown path |
| FuturisticNav.HandleClick | vegprotein-frontend/src/components/ui/futuristic-nav.jsx:31-34 | a click makes the item active and navigates to its path, whose lookup gives the same index back |
| FuturisticNav.IndicatorCenter | vegprotein-frontend/src/components/ui/futuristic-nav.jsx:44 | the indicator's centre lies strictly inside the active item's slot and strictly between 0 % and 100 % |
| AppRoutes.App | vegprotein-frontend/src/App.jsx:12-32 | for the token read from localStorage when `App` renders: `setAuth` gets it exactly when it is truthy (an empty string is not); the guarded pages render with a truthy token and otherwise redirect to `/login`; the public pages render regardless of the token; other paths match no route |
| AppRoutes.GuardedPages | vegprotein-frontend/src/App.jsx:21-32 | each of `/dashboard`, `/profile`, `/settings` renders its page exactly when the token read at `App`'s render is truthy |
| AppRoutes.Load | vegprotein-frontend/src/App.jsx:12-32 | a page load reads the stored token into the render, and a guarded path renders exactly when that token is truthy |
| AppRoutes.LoginThenNavigateAsWritten | vegprotein-frontend/src/pages/Login.jsx:8-16 | storing the demo token and navigating leaves the render's token as it was, and a guarded path renders exactly when that old token is truthy |
| AppRoutes.SkipBouncesToLogin | vegprotein-frontend/src/pages/Login.jsx:8-11 | after a load without a token, skipping sign-up stores a truthy token yet the dashboard redirects to `/login` |
| AppRoutes.LoginThenNavigate | vegprotein-frontend/src/pages/Login.jsx:8-16 | corrected handlers: the stored and the rendered token are the demo token, every guarded path renders, and public paths are unaffected |
| AppRoutes.LoginReachesDashboard | vegprotein-frontend/src/pages/Login.jsx:13-16 | with the corrected handlers, skipping or finishing sign-up shows the dashboard, the same screen a fresh load with the token gives |
| AppRoutes.RedirectEndsAtLogin | vegprotein-frontend/src/App.jsx:23 | following a redirect renders the login page |
| Models.NewUser | backend/app/models.py:7-18 | a new user has goal 120, is active and has no location |
| Models.NewFood | backend/app/models.py:37-46 | a new food is vegan by default and has no image |
| Models.NewFoodPrice | backend/app/models.py:59-67 | a new price is "per lb" by default |
| Models.NextId | backend/app/models.py:10 | the next primary key is positive and larger than every id in the table |
| Models.InsertUser | backend/app/models.py:11 | inserting an e-mail that is already present fails on the unique constraint; otherwise one row with the defaults is appended and ids and e-mails stay unique |
| Models.FindById | backend/app/models.py:10 | the id lookup finds nothing exactly when no row has the id, and otherwise a row with it |
| Models.FindByIdFindsRow | backend/app/models.py:10 | with unique ids, looking up a row's id finds that row |
| Foods.ListFoods | backend/app/routers/foods.py:35-56 | omitted parameters default to no search, no category, all foods and 50 rows; a limit above 100 is rejected; every result is a stored food matching the search (ignoring case), the category and the vegan flag; results are in descending protein order, at most `limit`, and a matching food is left out only when the limit is reached and then has no more protein than any result |
| Foods.Categories | backend/app/routers/foods.py:59-68 | the categories are distinct and are exactly the non-null categories of the foods |
| Foods.TopProtein | backend/app/routers/foods.py:71-84 | omitted parameters default to 10 rows of vegan foods; a limit above 50 is rejected; results are stored foods, vegan when asked, in descending protein order, at most `limit` |
| Foods.ListFoodsDefaults | backend/app/routers/foods.py:37-40 | with no parameters the list answers with at most 50 foods and leaves one out only when 50 foods have at least its protein |
| Foods.TopProteinDefaultsToVegan | backend/app/routers/foods.py:73-74 | with no parameters top-protein answers with at most 10 foods, all vegan |
| Foods.TopProteinIsUnfilteredList | backend/app/routers/foods.py:71-84 | within its bound, top-protein answers exactly as the list endpoint with no search and no category |
| Foods.SeedFoods | backend/app/routers/foods.py:87-100 | a non-empty table is left unchanged and its size reported; an empty one receives exactly the 18 seed foods, numbered 1 to 18 |
| Foods.SeedIdempotent | backend/app/routers/foods.py:90-92 | seeding twice leaves the table as seeding once |
| Foods.GetFood | backend/app/routers/foods.py:103-114 | "Food not found" exactly when no food has the id, otherwise a food with the id |
| Foods.GetFoodFindsRow | backend/app/routers/foods.py:108 | with unique ids, looking up a food's id returns that food |
| Stores.ListStores | backend/app/routers/stores.py:43-56 | omitted parameters default to no search and 20 rows; a limit above 50 is rejected; results match the search ignoring case, keep table order and are the first `limit` matching stores |
| Stores.ListStoresDefaults | backend/app/routers/stores.py:45-46 | with no parameters the list is the first 20 stores of the table |
| Stores.NearbyStores | backend/app/routers/stores.py:59-99 | the radius defaults to 5 miles; results are in ascending distance; a store with coordinates is in the reply exactly when it is within the radius; every result comes from such a store, lies in the query's box, and has squared distance at most the squared radius |
| Stores.DefaultRadiusIsFiveMiles | backend/app/routers/stores.py:63 | without a radius, a store with coordinates is found exactly when its squared distance is at most 25 square miles |
| Stores.WithinRadiusInBox | backend/app/routers/stores.py:69-77 | a store within the radius always lies in the box of radius/69 by radius/55 degrees, so the box never drops a near store |
| Stores.NegativeRadiusFindsNothing | backend/app/routers/stores.py:87 | a negative radius finds no store |
| Stores.SeedStores | backend/app/routers/stores.py:102-115 | a non-empty table is left unchanged and its size reported; an empty one receives exactly the 5 seed stores, numbered 1 to 5 |
| Stores.SeedIdempotent | backend/app/routers/stores.py:105-107 | seeding twice leaves the table as seeding once |
| Stores.GetStore | backend/app/routers/stores.py:118-129 | "Store not found" exactly when no store has the id, otherwise a store with the id |
| Stores.GetStoreFindsRow | backend/app/routers/stores.py:123 | with unique ids, looking up a store's id returns that store |
| ProteinLogs.CreateLog | backend/app/routers/protein_logs.py:15-32 | the new log is owned by the current user with the given food, amount and insert time, has an id larger than all others, and is appended; ids stay unique |
| ProteinLogs.CreateLogKeepsOwners | backend/app/models.py:28 | logging for an existing user keeps every log's owner an existing user |
| ProteinLogs.GetLogs | backend/app/routers/protein_logs.py:35-49 | omitted parameters default to no date and 50 rows; a limit above 100 is rejected; results are the user's own stored logs, of the given day if one is, newest first, at most `limit`, and a matching log is left out only when the limit is reached and then is no newer than any result |
| ProteinLogs.GetLogsDefaults | backend/app/routers/protein_logs.py:37-38 | with no parameters the list holds at most 50 of the user's logs, leaving one out only when 50 newer-or-equal logs are listed |
| ProteinLogs.Remaining | backend/app/routers/protein_logs.py:67 | what remains is never negative, and is the goal minus the total unless that is negative |
| ProteinLogs.ProgressPercent | backend/app/routers/protein_logs.py:68 | progress is at most 100, is 0 for a goal of at most 0, is 100 exactly when the total reaches a positive goal, and otherwise is the total's share of the goal times 100 |
| ProteinLogs.LogsOn | backend/app/routers/protein_logs.py:60-63 | the day's logs are exactly the user's logs dated that day |
| ProteinLogs.Summarize | backend/app/routers/protein_logs.py:65-86 | today's total is the sum of the day's amounts and the count their number, with remaining and progress clamped as above |
| ProteinLogs.Today | backend/app/routers/protein_logs.py:52-86 | a NULL goal ends in a server error; otherwise the reply summarizes the user's logs of today |
| ProteinLogs.DeleteLog | backend/app/routers/protein_logs.py:89-108 | "Log not found" exactly when no log has both the id and the owner; otherwise exactly one such row is removed and every log with another id stays |
| ProteinLogs.DeleteTwiceNotFound | backend/app/routers/protein_logs.py:96-105 | with unique ids, deleting the same log again answers "Log not found" |
| ProteinLogs.Days | backend/app/routers/protein_logs.py:122-134 | the days are consecutive from the first, each with the user's total for that day, and each meets the goal exactly when its total reaches it |
| ProteinLogs.CountGoalMet | backend/app/routers/protein_logs.py:137 | the count is the size of the set of positions whose day met the goal; it is at most the number of days, 0 exactly when none meets it, and all of them exactly when all do |
| ProteinLogs.Week | backend/app/routers/protein_logs.py:116-147 | the week runs from six days before today to today; the days are its seven daily totals; the weekly total is the sum of the user's logs in those seven days; the average times 7 is the total; the goal-met count is at most 7 |
| ProteinLogs.WeekCountsGoalDays | backend/app/routers/protein_logs.py:122-137 | the weekly goal count is the number of calendar days of the week on which the user's summed protein reaches the goal |
| ProteinLogs.DaysCountGoalDays | backend/app/routers/protein_logs.py:122-137 | for any run of consecutive days, the goal-met count equals the number of those days whose protein reaches the goal |
| ProteinLogs.Weekly | backend/app/routers/protein_logs.py:111-147 | a NULL goal ends in a server error; otherwise the reply is the week ending today |
| ProteinLogs.DaysSumToWindow | backend/app/routers/protein_logs.py:122-136 | the sum of the daily totals equals the sum over all the user's logs in the window, each log counted once |
| ProteinLogs.WeeklyEndsWithToday | backend/app/routers/protein_logs.py:118-123 | the last day of the week is today, and its total is the one today's summary reports |
| Users.ApplyUpdate | backend/app/routers/users.py:26-29 | fields sent in the request take the sent value (null included), absent fields keep theirs, and id, e-mail, password and the active flag never change |
| Users.ApplyUpdateIdempotent | backend/app/routers/users.py:26-29 | applying the same update twice is applying it once |
| Users.ApplyUpdateCompose | backend/app/routers/users.py:26-29 | two updates in a row act as one where the later wins on every field it sends |
| Users.ToUserOut | backend/app/schemas.py:25-32 | the response model rejects a NULL goal with a server error, and otherwise carries the user's fields unchanged |
| Users.GetProfile | backend/app/routers/users.py:13-16 | the profile carries every field of the current user (id, e-mail, name, location, goal, active flag), or is a server error exactly when the goal is NULL |
| Users.UpdateProfile | backend/app/routers/users.py:19-34 | only the current user's row changes, by the update; the table's constraints are kept; the reply carries every field of the updated row, or is a server error exactly when the stored goal is NULL |
| Users.NullGoalBreaksReplies | backend/app/schemas.py:19-22 | an update sending a null goal is stored; then the profile, today's and the weekly summary all answer with a server error |
| Users.DaysOfBound | backend/app/routers/users.py:62-65 | logs fall on no more distinct days than there are logs, and on none only when there are none |
| Users.UserStats | backend/app/routers/users.py:37-72 | the log count is the number of the user's logs; the weekly protein is the sum of the user's logs dated seven days ago or later; the distinct-day count is the number of distinct calendar days among those logs, at most their number and 0 exactly when there are none; the goal is reported as stored |
| Users.StatsWindowIsWeekPlusOneDay | backend/app/routers/users.py:47-59 | with no log dated after today, the statistics' protein is the weekly total plus the total of the day before the week |
| Seqs.Filter | vegprotein-frontend/src/pages/Discover.jsx:117-119 | the result keeps exactly the elements satisfying the test, each as often as in the input |
| Seqs.ApplyLimit | backend/app/routers/foods.py:55 | `LIMIT` keeps a prefix of `min(limit, n)` rows, or all rows for a negative limit |
| Seqs.FindIndex | vegprotein-frontend/src/components/ui/futuristic-nav.jsx:20 | the first index satisfying the test, or -1 exactly when there is none |
| Sorting.SortDesc | vegprotein-frontend/src/pages/Dashboard.jsx:130 | the result is a permutation of the input in non-increasing key order |
| Sorting.SortAsc | backend/app/routers/stores.py:98 | the result is a permutation of the input in non-decreasing key order |
| Sorting.TopBy | backend/app/routers/foods.py:55 | `ORDER BY key DESC LIMIT n` keeps rows of the input, in descending order, as many as the limit allows, and leaves out only rows with no larger key than any kept |
| Sorting.HeadIsMax | vegprotein-frontend/src/pages/Dashboard.jsx:130-138 | the first element of a descending permutation has the largest key |

## Left out

- JSX rendering, Tailwind classes, framer-motion animation, confetti and icons, which are presentational. The pages Home, Profile and Settings are left out too: they hold static content. Of Login only the two handlers that store the demo token and navigate are modelled.
- The `setTimeout` and `setInterval` timing, focus management and `onSuccess` in sign-up.jsx are not modelled. The change from loading to success is the event `SuccessTimer`, and TextLoop's interval is the tick count of `Ticks`.
- SignUp.Submit: a rejected `onAuth` promise is not modelled; the reply is always a resolved `{success, error}` object.
- SignUp.EmailValidIsRegex and Discover.FilteredProducts: JavaScript's `toLowerCase` folds all of Unicode, but `LowerChar` folds only ASCII letters. The regex's `\s` is the ECMAScript white-space set, written out.
- Foods.ListFoods and Stores.ListStores: the `%` and `_` wildcards inside a search text are taken literally, and `ILIKE` folds only ASCII case, as SQLite's `LIKE` does.
- Rounding to one or two decimals (`round`, `toFixed`) is left out; values are exact reals. Stores.NearbyStores orders by exact distance rather than by the distance rounded to 2 places. Since rounding is monotone, the exact order is also an order by the rounded value, and only ties may differ.
- Stores.NearbyStores: the reply carries the squared distance, not `distance_miles`, because no square root is taken.
- SQL ordering among equal keys is unspecified. The contracts state only the order and the multiset of rows.
- Stores.ListStores and ProteinLogs.Today: their queries have no `ORDER BY`, so SQL promises no row order, but the model returns table (insertion) order. The first `limit` stores and the order of today's logs are therefore one admissible answer, not the only one.
- Time zones are left out. `date.today()` and `func.date(logged_at)` are both the UTC day of an integer timestamp, and the weekday name (`day_name`) is not modelled.
- The `created_at` and `updated_at` columns and the food-price relationships are not modelled beyond the `FoodPrice` record.
- backend/app/auth.py (`get_current_active_user`) is not part of this model; the current user is a parameter. backend/app/routers/auth.py (sign-up and sign-in through Supabase) is left out as a call into an external service.
- vegprotein-frontend/src/utils/api.js (the HTTP client), main.py and config.py are not part of this model. In `AppRoutes`, `setAuth` is represented by the token it receives.
- React Router's case-insensitive and trailing-slash path matching is left out: paths match exactly.
- AppRoutes.App: the `token` parameter is the value localStorage held when `App` last rendered, not its current value; a later `localStorage.setItem` is seen only after a page load (see `Tab` and Findings).
- AppRoutes.GuardedPages: as for `App`, the guard's token is the one read at `App`'s last render.
- Dashboard.Progress: the goal is a real number, so the signed zero and the infinities that `Number(e.target.value)` can produce are not modelled. For the input "-0" JavaScript gives `67 / -0 = -Infinity` and a bar of -Infinity, while the model gives 100 for goal 0.
- Users.ToUserOut: `UserOut.email` is an `EmailStr`, whose validation and normalisation are not modelled. Stored e-mails are taken to be valid and already normalised, as rows arrive through `UserCreate`'s `EmailStr`; an invalid stored address would also give a server error.
- Users.GetProfile: the server error is stated only for a NULL goal; the failure of an invalid stored e-mail against `EmailStr` is not modelled (see `Users.ToUserOut`).
- Users.UpdateProfile: as for `GetProfile`, the reply's e-mail is the stored one, without `EmailStr` validation or normalisation.
- Database sessions, commits and concurrency are left out: each request is a function from the tables to the reply and the new tables.

## Findings

| source | as written | input that shows it | evidently intended | confidence | as-written member | corrected member |
|---|---|---|---|---|---|---|
| vegprotein-frontend/src/pages/Login.jsx:8-16 | the handlers store "demo-token" and call `navigate("/dashboard")`, but App.jsx:12 reads the token only when `App` renders and the route guard at App.jsx:23 uses that value | open `/login` with no token stored, then skip (or finish) sign-up | the dashboard is shown once the token is stored | medium, not executed | AppRoutes.LoginThenNavigateAsWritten (AppRoutes.SkipBouncesToLogin) | AppRoutes.LoginThenNavigate (AppRoutes.LoginReachesDashboard) |
