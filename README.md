# Space: the content store, modelled in Dafny

Space is a documentation wiki. It keeps **spaces**, and each space holds a
tree of **pages**. A page is a node of a nested-set tree: it has an
interval `lft..rgt`, a depth and a child count, all scoped to its space.
Each page has one **content row** per language and version. **Accounts**
sign in to the wiki; each has one **authentication** row that records its
password hash, its sign-in history and a pending unlock token. A
middleware **gate** in front of the routes decides which requests need a
signed-in user.

This project models those parts and proves what they promise:

- **Status checks.** The space, page and user status enumerations, with
  their exact sets of valid strings.
- **Delete renames.** What a soft delete does to a space's name and key,
  and to an account's login.
- **Page loading.** The load hook of a page: fallback content, and the
  ancestor chain selected by interval containment.
- **Tree building.** `Pages.Build`, which turns an `lft`-ordered list into
  a forest by appending to each page's `Children` in place.
- **The spaces service**, over in-memory tables: `CreateSpace`,
  `DescribeSpace`, `UpdateSpace`, `CreatePage`, `DescribePages`,
  `DescribePage`, `UpdatePage` and `Serach` (that is the source's
  spelling).
- **Account parameters.** The checks on account parameters.
- **The accounts service**, over in-memory tables: `CreateAccount`,
  `DescribeAccount`, `AuthenticateAccount`, `UpdateAccount`,
  `UpdatePassword`, `CreateUnlockToken` and `Unlock`. This includes the
  token transform: the first segment of a compact JWS (RFC 7515 section
  7.1) is stripped when a token is issued and put back when it is
  redeemed.
- **The gate's path decision.**

## How it is modelled

- **Tables.** Each table is a sequence in id order. Ids are autoincrement
  and the core never deletes, so a row's id is its position plus one.
  `First` picks the earliest matching row.
- **Constraints.** The unique indexes are stated as invariants (`Valid`),
  and every writing operation is proved to keep them.
- **Errors.** Go's `(value, error)` pairs are `Result`, and nil is
  `None`.
- **Nullable parent.** A node's `sql.NullInt64` parent id is the pair
  `parentValid`/`parentId`. `Build` reads only the number, so NULL and 0
  are both roots; the SQL filter `parent_id = ?` never matches NULL. The
  `CreateSpace` homepage has a NULL parent, while every `CreatePage` node
  has a set one (spaces/service.go:79-81, 274-277).
- **Writing operations.** Each one is a method of a class whose fields are
  the tables (`SpacesService.Service`, `AccountsService.AccountStore`). The
  method is proved equal to a step function on the tables; the step
  functions and the lemmas about them carry the properties.
- **Pages** are objects (`PageModel.Page`), because `Build` and the load
  hook update them in place.
- **Abstract collaborators.** These are function values:
  - the Markdown renderer;
  - bcrypt hashing and comparison;
  - JWT signing and parsing;
  - base64url coding (RFC 4648 section 5);
  - the e-mail syntax check;
  - the MD5 digest.
- **Inputs.** The clock and the random token nonce are arguments.

Files:

| file | what it holds |
|---|---|
| `common.dfy` | Option, Result, the error values, first-match and filter over a table, field patching |
| `text.dfy` | prefix and substring tests, `strings.TrimSpace`, split and join on one character, decimal and zero-padded printing |
| `space_model.dfy` | `SpaceStatus`, `Space`, the delete rename |
| `page_model.dfy` | `PageStatus`, nodes and content rows, the content joins, the ancestor chain, class `Page` with `AfterFind` and `Build` |
| `nested_set.dfy` | the node insertion the tree library is assumed to perform |
| `spaces_service.dfy` | the spaces service |
| `account_model.dfy` | `UserStatus`, `Account`, the avatar hook, the time layout, the delete rename |
| `account_params.dfy` | the parameter checks of the accounts service |
| `accounts_service.dfy` | the accounts service and the token transform |
| `auth_gate.dfy` | the middleware's decision |

## Model

| member | source | states |
|---|---|---|
| Common.FirstWhere | spaces/service.go:168 | the position returned holds a row satisfying the condition, with no earlier row satisfying it; None exactly when no row does (GORM `First` on an id-ordered table) |
| Common.Positions | spaces/service.go:480 | every position of a row that satisfies the condition, each once, in increasing order |
| Common.Where | spaces/service.go:480 | the filtered rows are exactly the table rows that satisfy the condition |
| Common.WherePositions | spaces/service.go:480 | the filter is the table read at the matching positions, in table order |
| Common.WhereCount | spaces/service.go:481 | the filter's length is the number of rows that satisfy the condition |
| Common.WhereMultiplicity | spaces/service.go:480 | the filter holds a matching value as often as the table does, and a non-matching one not at all |
| Text.ContainsAt | spaces/service.go:479-480 | substring containment (the `LIKE '%q%'` model) holds exactly when the query occurs at some offset |
| Text.TrimSpace | spaces/service.go:471 | the trimmed string neither starts nor ends with white space |
| Text.TrimSpaceIsSlice | spaces/service.go:471 | the trimmed string is a contiguous slice of the input, and only white space is cut from either side |
| Text.TrimSpaceEmpty | spaces/service.go:471-477 | the trimmed query is empty exactly when the input is all white space |
| Text.Split | accounts/service.go:282 | the pieces contain no separator, and there is at least one |
| Text.JoinSplit | accounts/service.go:282-283 | joining the pieces of a split gives back the string |
| Text.DropFirstPiece | accounts/service.go:282-283 | joining all pieces but the first gives everything after the first separator |
| Text.NatStringValue | models/space.go:62 | the decimal spelling of a number reads back as that number |
| Text.DecimalString | models/space.go:62 | the `%d` spelling of an integer, with a minus sign for a negative one, reads back as the integer |
| Text.LeadingZeros | models/account.go:67 | leading zeros do not change the value of a digit string |
| Text.Pad | models/account.go:67 | zero-padded printing has at least the given width and reads back as the number |
| Text.NatStringLength | models/account.go:67 | numbers below 100, 1000 and 10000 have at most two, three and four digits |
| SpaceModel.CheckSpaceStatus | models/space.go:27-35 | no error exactly for the name of a recognised status; `ErrSpaceStatusIsInvalid` otherwise |
| SpaceModel.SpaceStatusValues | models/space.go:27-35 | exactly "offline" and "online" are valid; "" is not |
| SpaceModel.DeletedSuffix | models/space.go:60-62 | the suffix is " [deleted-", the decimal Unix time and "]" |
| SpaceModel.BeforeDelete | models/space.go:59-66 | name and key both get the same suffix; every other field is unchanged |
| SpaceModel.DecimalInjective | models/space.go:62 | different integers print differently under `%d` |
| SpaceModel.BeforeDeleteFreesName | models/space.go:59-66 | the renamed name and key differ from the live ones, and deletes at different seconds give different names |
| PageModel.CheckPageStatus | models/page.go:29-37 | no error exactly for draft, published, offline and deprecated; `ErrPageStatusIsInvalid` for every other string, "" included |
| PageModel.Condition | models/page.go:77-82 | a query field adds a condition exactly when it is non-empty |
| PageModel.FirstContent | models/page.go:77-85 | the lowest-id row of the page meeting the optional language and version, or None when no row does |
| PageModel.JoinRow | spaces/service.go:393-396 | the joined row belongs to the page and meets the given language and version; None exactly when no row does |
| PageModel.JoinedContent | models/page.go:76-85 | the ancestor's joined content without body and html, meeting only the non-empty query fields |
| PageModel.Enclosing | models/page.go:86 | exactly the rows whose interval strictly encloses the page's, from every space: the rows at the enclosing positions in table order, each row once |
| PageModel.InsertByLftSpec | models/page.go:87 | inserting by `lft` into a sorted list keeps it sorted and adds exactly the element |
| PageModel.SortByLftSpec | models/page.go:87 | the `lft ASC` order is sorted and a permutation of its input |
| PageModel.AncestorChain | models/page.go:74-92 | the parents are exactly the enclosing rows, each as often as the table holds it (so no node twice when the rows are distinct), in ascending `lft`, each with its joined content |
| PageModel.AncestorsOnce | models/page.go:86-87 | without repeated rows in the table, the sorted ancestors hold no node twice |
| PageModel.DistinctOnce | models/page.go:86-87 | a sequence without repeats holds each value at most once |
| PageModel.OnceDistinct | models/page.go:86-87 | a sequence that holds each value at most once has no repeats |
| PageModel.AncestorsCrossSpaces | models/page.go:86 | the ancestor query has no space condition, so an enclosing root of another space becomes a parent |
| PageModel.Page.AfterFind | models/page.go:69-96 | a present content is kept, a missing one becomes the fallback; parents are computed only when a query is set |
| PageModel.Build | models/page.go:147-168 | returns the pages with parent id 0 in input order; each page's children gain, in input order, the pages that name it as parent |
| PageModel.NodeMap | models/page.go:154-155 | the map of the first loop: its keys are exactly the ids in the list, each id maps to a listed page with that id, and a page no later page shares its id with is the one its id maps to (the last write wins) |
| PageModel.IndexPages | models/page.go:154-159 | the first loop collects the roots (`Roots`) and maps each id to its last page (`NodeMap`) |
| PageModel.LinkChildren | models/page.go:161-165 | the second loop appends each page to the children of its mapped parent; the pages appended to one parent are `Matching` |
| PageModel.RootsMembers | models/page.go:156-158 | a page is in `Roots` exactly when it is listed and its parent id is 0 |
| PageModel.NoRoots | models/page.go:156-158 | a list without a zero parent id has no roots |
| PageModel.MatchingIsWithParent | models/page.go:161-165 | with distinct ids, the appended children are exactly the pages whose parent id is the page's id |
| PageModel.MatchingMembers | models/page.go:161-165 | a page is in `Matching` for a parent, that is, appended to it, exactly when it is listed and its parent id maps to that parent |
| PageModel.OrphanDropped | models/page.go:154-165 | a page whose parent is absent from the list is neither a root nor anyone's child |
| PageModel.BuildAppendsChild | models/page.go:163 | children are appended, not reset; a page with a listed child gains at least one entry on every build, so `Build` is not idempotent |
| NestedSet.MaxRgt | spaces/service.go:83 | the largest `rgt` in the space, 0 when it has no nodes |
| NestedSet.InsertRoot | spaces/service.go:83 | the assumed root insertion: next id, the nullable parent id as given, depth 0, an interval right of every interval of the space |
| NestedSet.InsertChild | spaces/service.go:279-280 | the assumed child insertion: a set parent id naming the parent, one level deeper, inside the parent, one more child on the parent, other spaces untouched |
| NestedSet.InsertRootLaminar | spaces/service.go:83 | the root insertion keeps the intervals of every space properly nested |
| NestedSet.InsertChildLaminar | spaces/service.go:279-280 | the child insertion keeps the intervals properly nested and keeps which rows enclose which |
| NestedSet.ShiftIsMoved | spaces/service.go:279-280 | within the parent's space both endpoints of every row move monotonically |
| NestedSet.ChildCompatible | spaces/service.go:279-280 | the new child is disjoint from, or inside, every existing row of its space |
| SpacesService.SpaceByKey | spaces/service.go:168 | the space with the key, None exactly when no space has it |
| SpacesService.SpaceById | spaces/service.go:261 | the space with the id, None exactly when no space has it |
| SpacesService.CreateSpaceStep | spaces/service.go:50-120 | an invalid status fails before any write; any failure leaves the tables unchanged; succeeds exactly when the status is valid and name and key are free |
| SpacesService.CreateSpaceSeeds | spaces/service.go:61-113 | a created space gets the next id and the given fields, a root homepage node of its own with a NULL parent, and one published content row in its language titled by its name with the description as body and HTML |
| SpacesService.AddedSpaceKeepsValid | spaces/service.go:62-70 | a space with the next id and a free name and key keeps the invariant |
| SpacesService.CreateSpaceKeepsValid | spaces/service.go:61-113 | creating a space keeps ids, unique names, keys and content keys, and proper nesting |
| SpacesService.AppendSpaceKeepsUnique | models/space.go:40-41 | appending a space with a free name and key keeps both unique |
| SpacesService.AppendContentKeepsUnique | models/page.go:121-123 | a content row of a new page keeps the content key unique |
| SpacesService.HomepageOf | spaces/service.go:183 | the homepage node of the space, None exactly when it is missing |
| SpacesService.ContentIn | spaces/service.go:189 | the first (lowest-id) content row of the page in the language, None exactly when there is none |
| SpacesService.DescribeSpace | spaces/service.go:160-198 | unknown key is not-found; an empty lang reads the space's language (`ReadLang`, spaces/service.go:173-176); the space is returned exactly when its homepage and a row in the read language exist, with that homepage and the first such row; an exact miss whose fallback row exists returns no space and no error |
| SpacesService.CreateThenDescribeSpace | spaces/service.go:63-110 | reading a new space by key finds it, its homepage and the published seed content |
| SpacesService.AppendedKey | spaces/service.go:168 | a space appended with a free key is what the key lookup finds |
| SpacesService.AppendedHomepage | spaces/service.go:183 | a node appended with a fresh id is what the homepage lookup finds |
| SpacesService.AppendedContent | spaces/service.go:189 | a content row of a page without other rows is what the content lookup finds |
| SpacesService.PatchSpace | spaces/service.go:213-234 | each given field takes its new value, the status only a valid one, nothing else changes; an empty patch with an invalid status is the identity |
| SpacesService.UpdateSpaceStep | spaces/service.go:200-240 | unknown key is not-found; succeeds exactly when the key exists and the patched name is free, so an invalid status alone never fails; only the given fields change; the status changes only to a valid one; failures leave the tables unchanged |
| SpacesService.UpdateSpaceKeepsValid | spaces/service.go:237 | saving the patched space keeps the invariant |
| SpacesService.EmptyUpdateChangesNothing | spaces/service.go:212-237 | a patch with no field and an invalid status leaves the space as it was |
| SpacesService.ParentAt | spaces/service.go:266-270 | the parent is looked up only for a positive parent id |
| SpacesService.ShortTitleOr | spaces/service.go:302-304 | an empty short title defaults to the title |
| SpacesService.CreatePageStep | spaces/service.go:242-321 | status, then rendering, then the space are checked before any write; failures leave the tables unchanged; exact success condition |
| SpacesService.CreatePageWrites | spaces/service.go:272-316 | one node with a set (non-NULL) parent id and one content row, in the space's language, with defaulted short title and rendered HTML |
| SpacesService.CreatePagePlaces | spaces/service.go:279-283 | a root lies right of its space's intervals; a child lies inside its parent, one level deeper |
| SpacesService.CreatePageIgnoresLang | spaces/service.go:293 | the requested language changes nothing |
| SpacesService.CreatePageKeepsValid | spaces/service.go:272-316 | creating a page keeps the invariant |
| SpacesService.AddedPageKeepsValid | spaces/service.go:310 | a table extended by one nested node and its first content row stays valid |
| SpacesService.FallbackFor | spaces/service.go:348-350 | the fallback join happens exactly for a non-empty fallback language that differs from the read language |
| SpacesService.ListingRows | spaces/service.go:335-360 | exactly the nodes of the space within depth and parent filter (which never matches a NULL parent), in `lft` order, read in `ReadLang` (an empty lang reads the space's language, spaces/service.go:335-338), each with its content and fallback joins |
| SpacesService.Service.DescribePages | spaces/service.go:323-370 | unknown space is not-found; the fresh pages are the listed rows, linked by `Build`; the result is their roots; a parent filter other than 0 yields [] (see `ListingRows` for the filter 0) |
| SpacesService.ListedUnderParent | spaces/service.go:356-358 | with a parent filter every listed row has that parent, and it is not NULL |
| SpacesService.SeededHomepageUnlisted | spaces/service.go:356-358 | no parent filter, `parent_id = 0` included, lists the homepage `CreateSpace` seeds |
| SpacesService.RowsWithoutRoots | models/page.go:156-158 | pages none of whose rows has parent id 0 give no roots |
| SpacesService.Service.LoadTree | spaces/service.go:360-369 | the loaded pages keep their rows and joins and get exactly the children `Build` links; no zero parent id means no roots |
| SpacesService.Service.LoadPages | spaces/service.go:360-367 | one fresh page per row, in order, with its joins, its space and the fallback applied |
| SpacesService.PageInSpace | spaces/service.go:401 | the node with that id in that space, None exactly when there is none |
| SpacesService.Detail | spaces/service.go:384-402 | the intended reading of the detail query (see "## Findings"): the page row of the space with its content in the read language (`ReadLang`: the requested one, or the space's when empty, spaces/service.go:384-387) and version and its fallback join; None exactly when the page is not in the space |
| SpacesService.DetailQuery | spaces/service.go:389-402 | the detail query as built: it fails exactly when a version is given or the fallback join is added; otherwise it finds the page exactly when the page is in the space and has a row in the read language, and then equals `Detail`, with that row and no fallback |
| SpacesService.FallbackJoinLosesPage | spaces/service.go:395-402 | a new space with languages "en" and "fr": `Detail` finds its homepage, the query as built fails |
| SpacesService.Service.DescribePage | spaces/service.go:372-411 | unknown space is not-found; a failed query is the error; no row gives the zero page with the space set and no error; a found page carries its read-language content and the ancestor chain for the read language |
| SpacesService.NodeById | spaces/service.go:420 | the node with the id, None exactly when there is none |
| SpacesService.UpdatePageStep | spaces/service.go:413-464 | checks in order: page exists, status given and valid, content row exists, body renders; failures leave the tables unchanged |
| SpacesService.UpdatePageWrites | spaces/service.go:429-461 | the first row of the page with the given language and version is rewritten in place; only given fields change; HTML is re-rendered only with a new body |
| SpacesService.UpdatePageKeepsValid | spaces/service.go:461 | saving the content row keeps the invariant |
| SpacesService.ReplacedContentKeepsValid | spaces/service.go:461 | rewriting a row with its id and key kept keeps the invariant |
| SpacesService.UpdateThenDescribePage | spaces/service.go:413-464 | after an update naming a language and version, the intended read of that page in them gives the patched row, while the query as built fails |
| SpacesService.SavedRowFirst | spaces/service.go:438 | the rewritten row is still the first row the join selects |
| SpacesService.SearchMatches | spaces/service.go:480 | exactly the rows satisfying `Hit` (in the language, and the title or the body contains the query), read at the matching positions in table order, one per matching row |
| SpacesService.Window | spaces/service.go:485-486 | the offset/limit slice: its length and its elements |
| SpacesService.Hits | spaces/service.go:496-499 | one result per content row of the page window |
| SpacesService.HitsAt | spaces/service.go:496-499 | the k-th result is the k-th row's page carrying that row |
| SpacesService.WindowHasNodes | spaces/service.go:485-490 | every row of a page window of table rows has its page |
| SpacesService.ContentHasNode | spaces/service.go:488-490 | every content row's page exists |
| SpacesService.CollectHits | spaces/service.go:496-499 | the loop appends one result per row, in order, to the given items |
| SpacesService.Service.Serach | spaces/service.go:466-502 | a blank query returns the given pagination; otherwise offset and limit are kept, the total is the number of matching rows before paging, and the items gain one result per window row of the matches in table order (`HitsAt` gives each one); results of one page that share a Go struct are listed under "## Left out" |
| SpacesService.Service.CreateSpace | spaces/service.go:50-120 | equals `CreateSpaceStep` and keeps the invariant |
| SpacesService.Service.UpdateSpace | spaces/service.go:200-240 | equals `UpdateSpaceStep` and keeps the invariant |
| SpacesService.Service.CreatePage | spaces/service.go:242-321 | equals `CreatePageStep` and keeps the invariant |
| SpacesService.Service.UpdatePage | spaces/service.go:413-464 | equals `UpdatePageStep` and keeps the invariant |
| AccountModel.IsValidStatus | models/account.go:24-30 | true exactly for the name of a recognised status |
| AccountModel.UserStatusValues | models/account.go:24-30 | exactly "pending", "activated" and "disabled" are valid; "" is not |
| AccountModel.AfterFind | models/account.go:52-62 | with an e-mail address the avatar is the Gravatar address for its digest; without one the account is unchanged; only the avatar changes |
| AccountModel.AfterFindStable | models/account.go:52-62 | loading twice equals loading once, and the avatar depends on the e-mail address alone |
| AccountModel.Format | models/account.go:67 | the layout "2006-01-02 15:04:05" prints 19 characters for a time in range |
| AccountModel.DatePart | models/account.go:67 | the date part of the layout prints 10 characters for a time in range |
| AccountModel.ClockPart | models/account.go:67 | the time-of-day part of the layout prints 8 characters for a time in range |
| AccountModel.DateInjective | models/account.go:67 | different dates in range print differently |
| AccountModel.ClockInjective | models/account.go:67 | different times of day in range print differently |
| AccountModel.FormatInjective | models/account.go:67 | different times in range print differently |
| AccountModel.PadInjective | models/account.go:67 | equal zero-paddings of one width pad equal numbers |
| AccountModel.DeletedSuffix | models/account.go:67 | the suffix is " [deleted-", the formatted time and "]" |
| AccountModel.BeforeDelete | models/account.go:65-72 | only the login changes: it gets the suffix |
| AccountModel.BeforeDeleteFreesLogin | models/account.go:65-72 | the renamed login differs from the live one, and deletes at different times in range give different logins |
| AccountParams.CheckDescribeAccount | accounts/params/account.go:40-45 | `ErrDescribeAccountParamsInvalid` exactly when id is 0 and login and e-mail are empty |
| AccountParams.OneSelectorSuffices | accounts/params/account.go:40-45 | a non-zero id alone, a login alone or an e-mail alone is valid |
| AccountParams.CreateAccountValid | accounts/params/account.go:17-19 | the three `validate` tags: a login, a well-formed e-mail address, and a password of 8 to 56 code points (its contract is `CreateAccountRules`) |
| AccountParams.CreateAccountRules | accounts/params/account.go:16-24 | an empty login, an empty or malformed e-mail, and a password shorter than 8 or longer than 56 characters are each rejected; all else is accepted; the other fields never matter |
| AccountsService.FindAccount | accounts/service.go:150-162 | the first account every set selector matches; with no selector, the first account |
| AccountsService.AccountByLogin | accounts/service.go:225 | the first account with the login, even the empty one |
| AccountsService.ByLoginUnique | accounts/service.go:225 | with unique logins, the login lookup finds the one account that has the login |
| AccountsService.AccountByEmail | accounts/service.go:251 | the first account with the e-mail address |
| AccountsService.CreateAccountStep | accounts/service.go:74-113 | validation fails before any write; a taken login or e-mail or a failed hash leaves both tables unchanged; exact success condition |
| AccountsService.CreateAccountWrites | accounts/service.go:84-106 | one account with the given fields and an empty, invalid status, plus its authentication row with the hash and no history |
| AccountsService.CreateAccountKeepsValid | accounts/service.go:84-106 | creating an account keeps ids, pairing and unique logins and e-mails |
| AccountsService.DescribeAccountOf | accounts/service.go:140-168 | invalid parameters and no match fail with their errors; otherwise the first matching account, loaded |
| AccountsService.NegativeIdTakesFirst | accounts/service.go:146-162 | a negative id passes the check, adds no condition and loads the first account |
| AccountsService.DescribeByLogin | accounts/service.go:154-162 | a stored login finds its account |
| AccountsService.SignedIn | accounts/service.go:206-210 | the failure count is cleared, the current sign-in becomes the last, and the new one is recorded |
| AccountsService.AuthenticateStep | accounts/service.go:170-217 | every failure is Unauthorized, never not-found; success exactly with a selector, a match and the right password; failure count, lock and status are not consulted |
| AccountsService.AuthenticateWrites | accounts/service.go:197-214 | a wrong password adds exactly one failed attempt and changes nothing else; a right one stores the signed-in row |
| AccountsService.AuthenticateKeepsValid | accounts/service.go:200-214 | signing in keeps the invariant |
| AccountsService.AuthReplacedKeepsValid | accounts/service.go:212 | rewriting an authentication row with its ids kept keeps the invariant |
| AccountsService.CreateThenAuthenticate | accounts/service.go:74-217 | right after creation, signing in with the login and the password it was created with succeeds |
| AccountsService.UpdateAccountStep | accounts/service.go:219-243 | an unknown login is not-found and changes nothing; passwords are never touched |
| AccountsService.UpdateAccountWrites | accounts/service.go:230-240 | only the given name, bio and location change, in place |
| AccountsService.UpdateAccountKeepsValid | accounts/service.go:240 | saving the account keeps the invariant |
| AccountsService.EmptyAccountUpdate | accounts/service.go:230-240 | an update with no field set leaves the tables unchanged |
| AccountsService.UpdatePasswordStep | accounts/service.go:346-386 | an empty new password fails before any lookup; then not-found, a wrong password (Unauthorized) and a failed hash, all without changes |
| AccountsService.UpdatePasswordWrites | accounts/service.go:356-385 | only the selected account's hash changes; with no selector the first account is selected |
| AccountsService.UpdatePasswordKeepsValid | accounts/service.go:385 | changing a password keeps the invariant |
| AccountsService.Strip | accounts/service.go:281-283 | everything after the first dot of the signed string, or "" without a dot |
| AccountsService.Restore | accounts/service.go:291-308 | the fixed header segment, a dot, and then the token unchanged |
| AccountsService.StripRestore | accounts/service.go:281-308 | restoring then stripping gives the token back; stripping then restoring gives back a signed string with the fixed header |
| AccountsService.HeaderFirst | accounts/service.go:282 | the dot after the header segment is the first dot |
| AccountsService.NoDotInHeader | accounts/service.go:307 | the header segment holds no dot |
| AccountsService.CreateUnlockTokenStep | accounts/service.go:245-287 | unknown e-mail, failed signing and failed hashing fail in that order without changes; otherwise the nonce's hash is stored and the stripped token encoded |
| AccountsService.UnlockStep | accounts/service.go:289-344 | exact success condition: decodes, parses with the header restored at the given clock reading, account found, pending token matches the nonce; failures change nothing |
| AccountsService.UnlockWrites | accounts/service.go:333-338 | a successful unlock sets failed attempts 0, the unlock token NULL and locked-at 0, and nothing else; the login parameter plays no part |
| AccountsService.UnlockOnce | accounts/service.go:329-338 | after a successful unlock the same token, at the same clock reading, is Unauthorized |
| AccountsService.TokensKeepValid | accounts/service.go:276-338 | issuing and redeeming tokens keep the invariant |
| AccountsService.CreateThenUnlock | accounts/service.go:245-344 | with sound primitives, the token handed out, redeemed before fifteen minutes have passed, unlocks the account it was issued for |
| AccountsService.ExpiredTokenRefused | accounts/service.go:261-316 | with sound primitives, the same token redeemed fifteen minutes or more after issue is an invalid token and changes nothing |
| AccountsService.IssuedToken | accounts/service.go:276-308 | the handed-out token, decoded and with the header put back, is the string signed for the issued claims |
| AccountsService.AccountStore.DescribeAccount | accounts/service.go:140-168 | equals `DescribeAccountOf` |
| AccountsService.AccountStore.CreateAccount | accounts/service.go:74-113 | equals `CreateAccountStep` and keeps the invariant |
| AccountsService.AccountStore.AuthenticateAccount | accounts/service.go:170-217 | equals `AuthenticateStep` and keeps the invariant |
| AccountsService.AccountStore.UpdateAccount | accounts/service.go:219-243 | equals `UpdateAccountStep` and keeps the invariant |
| AccountsService.AccountStore.UpdatePassword | accounts/service.go:346-386 | equals `UpdatePasswordStep` and keeps the invariant |
| AccountsService.AccountStore.CreateUnlockToken | accounts/service.go:245-287 | equals `CreateUnlockTokenStep` and keeps the invariant |
| AccountsService.AccountStore.Unlock | accounts/service.go:289-344 | equals `UnlockStep` at the given clock reading and keeps the invariant |
| AuthGate.AnyPrefix | cmd/space/actions/auth.go:37-39 | true exactly when some listed prefix is a prefix of the path |
| AuthGate.Gate | cmd/space/actions/auth.go:33-78 | reads the session exactly for a non-skipped path; clears the account entry only after a failed lookup of a string login |
| AuthGate.SkippedPassesUntouched | cmd/space/actions/auth.go:37-42 | a skipped path passes without reading the session |
| AuthGate.RawPrefixMatch | cmd/space/actions/auth.go:17-30 | matching is by raw prefix: "/pingx" is skipped |
| AuthGate.ApiNeverSkipped | cmd/space/actions/auth.go:17-30 | no skip prefix is a prefix of an "/api" path |
| AuthGate.SecondChar | cmd/space/actions/auth.go:17-30 | every skip prefix has a second character other than 'a' |
| AuthGate.ApiRejected | cmd/space/actions/auth.go:68-70 | every "/api" request is answered Unauthorized, even with an account found |
| AuthGate.OthersContinue | cmd/space/actions/auth.go:68-77 | other paths continue, signed in or not |
| AuthGate.AccountSetExactly | cmd/space/actions/auth.go:49-64 | the account is set exactly for a string login whose lookup succeeds, and cleared exactly when it fails |
| AuthGate.EmptyLoginSignsNobodyIn | cmd/space/actions/auth.go:49-64 | an empty session login never sets an account |
| AuthGate.StoredLoginSignsIn | cmd/space/actions/auth.go:49-64 | a stored login sets that account, loaded |

## Where the documented design and the code differ

The model follows the code in each case.

- **`Build` is not idempotent.** `Build` appends to `Children` and never
  resets them, so building twice duplicates children
  (`PageModel.BuildAppendsChild`).
- **Ancestors cross spaces.** The ancestor query has no space condition,
  so the parents of a page can include nodes of another space
  (`PageModel.AncestorsCrossSpaces`).
- **`CreateAccount` drops the status.** It does not copy the requested
  status, so new accounts have the empty, invalid status
  (`AccountsService.CreateAccountWrites`).
- **No lockout on sign-in.** Sign-in never consults the failure count or
  the lock time (`AccountsService.AuthenticateStep`).

## Left out

GORM and SQL:

- **Join kinds, `LIKE` and `Paginate()`.** Join kinds, `LIKE` collation,
  case folding and unescaped wildcards are not modelled. Search is plain
  substring containment, and `Paginate()` is an abstract offset/limit
  slice.
- **Row order.** A query without `ORDER BY` returns rows in table (id)
  order, and `ORDER BY lft ASC` keeps table order among equal `lft`
  values. SQL leaves both orders unspecified.
- **Several rows in one join.** When a join matches several content rows,
  the model takes the lowest-id row; SQL would return the page once per
  row.
- **The version condition in `DescribeSpace`.** A non-empty version adds
  a `version` condition to the statement that the homepage and content
  lookups reuse (spaces/service.go:178-180). The node table has no such
  column. The model ignores the version parameter of `DescribeSpace`.
- **The SQL of `DescribePage`.** The SQL text is not modelled. Its
  effect is: `SpacesService.DetailQuery` states when the statement fails,
  when it finds the page, and when it finds nothing (see "## Findings").
- **Save and update errors.** Errors of a `Save` or `Update` after a
  successful lookup are not modelled, with one exception: a `Save` in
  `UpdateSpace` (spaces/service.go:237) that violates the unique name or
  key index is the `Conflict` error. Go returns the patched space together
  with that error (spaces/service.go:239); the model returns the error
  alone. Likewise, when the transaction of `CreatePage` fails, Go sets the
  content on the page and returns the page with the error
  (spaces/service.go:318-320); `CreatePageStep` returns the error alone. Unique-index violations on insert are the `Conflict` error.
- **Transactions.** A transaction is all-or-nothing: a failing step
  returns the tables unchanged. Isolation and concurrent writers are not
  modelled.
- **Soft deletes.** Deleted rows are never filtered out, because the core
  never deletes.
- **Shared preloads.** When GORM preloads one row for several results,
  they share one struct; the model gives each result its own value. The
  one place this is visible is `Serach`, next line.
- SpacesService.Service.Serach: results for one page are one shared page
  in Go. `Preload("Page")` (spaces/service.go:489-491) loads one struct per
  page for all its matched rows in the window, and the loop at
  spaces/service.go:496-499 sets its `Content` once per row, so every
  result of that page shows the last of its rows in the window. The model
  (`Hits`, `HitsAt`) gives result k its own page carrying row k of the
  window. The two agree whenever the window holds at most one matching row
  per page.

Behaviour fixed by the model where the code's is not visible:

- **Node insertion.** `nestedset.Create` comes from a library that is not
  part of this model. `NestedSet` states an ASSUMED textbook algorithm;
  its lemmas are about that assumption, not about the library.
- **Parent in another space.** `CreatePage` with a parent in another space
  fails with `ScopeMismatch`, as the scope annotation of `SpaceID`
  implies.
- **Parent not found.** With a positive parent id that matches no page,
  `Find` (spaces/service.go:267) allocates the parent and leaves it
  zero-valued, and `nestedset.Create` (spaces/service.go:280) is called
  with that zero parent. What the library does with it is not visible.
  The model ASSUMES it inserts the page as a root that keeps the given
  parent id.
- **Missing page in `DescribePage`.** When no row matches, `Find`
  (spaces/service.go:402) leaves the struct it allocated zero-valued, the
  space is set on it (spaces/service.go:408) and it is returned with no
  error. The model returns that zero page. It ASSUMES that GORM runs the
  load hook only for rows it loaded, so the zero page has no content, no
  fallback and no parents.
- **Nil status in `UpdatePage`.** A nil status would be a nil dereference
  in Go; the model fails with `NilStatus`.
- **Missing authentication row.** An account without its authentication
  row would be a nil dereference in Go. The tables are kept paired, so
  this cannot happen in the model.

Abstracted or outside the model:

- **Foreign primitives.** The Markdown renderer (goldmark, autocorrect,
  bluemonday), bcrypt, JWT signing, parsing and expiry checking, ulid,
  MD5 and base64url are function values. Their own behaviour is not
  modelled. `CreateThenUnlock` and `ExpiredTokenRefused` assume the laws
  collected in `SoundCrypto`, among them that a signed token parses to
  its claims exactly while the clock reads before their expiry. Expiry
  is compared in whole seconds.
- **Clock and nonce.** These are arguments. `Unlock` takes the clock
  reading that the token parser checks the expiry against.
  `Account.BeforeDelete` is given the time as calendar fields: time zones, negative years and
  years above 9999 are not modelled, and `FormatInjective` is proved for
  years 0 to 9999.
- **The gate's side effects.** The gate does not model saving the
  session, logging, or the request context. Only the decision is.
- **Not in the core.** `DescribeSpaces`, `DescribeAccounts`,
  `CreateResetPasswordToken` and `ResetPassword` are not in the core:
  the last two mirror the unlock pair with another key and column.
  `NewService`, `MarshalJSON`, `TableName`, the create hook that hashes a
  password, and the status enum of `CreateAccount` are plumbing.
- **Transport, presentation and stale declarations.** HTTP routing,
  handlers, templates, assets and the TypeScript front end are out of
  scope. So are the stale fields in spaces/params.
- **Integer width.** Integers are unbounded; the 64-bit ids and counters
  of the source never wrap in the modelled operations.
- `SpacesService.Hits`: its own contract gives only the length. The
  element-wise statement is `SpacesService.HitsAt`.
- `SpacesService.Service.DescribePage`: the pages it returns are fresh
  objects. The aliasing between a page and the shared preloaded space
  struct is not modelled.

## Findings

| source | as written | input that shows it | evidently intended | confidence | as-written member | corrected member |
|---|---|---|---|---|---|---|
| spaces/service.go:389-402 | `DescribePage` reuses the statement chain. A version condition, or the fallback join's language condition, lands on the page table, which has no such column. The fallback join also makes the unqualified `page_id` ambiguous. Without both, `page_id` is the content row's, so a page with no row in the read language is not found. | a space with language "en" and fallback language "fr"; its homepage read with no language and no version | the page of the space with that id, its content in the read language and version, and its fallback row | medium; read from how GORM builds the statement, not executed | SpacesService.DetailQuery, SpacesService.FallbackJoinLosesPage | SpacesService.Detail, SpacesService.UpdateThenDescribePage |
