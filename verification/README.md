# Contact list controller — a Dafny model

This project models `ContatosComponent`, the controller of a small Angular
contact-management screen. The controller holds the full contact list
(`contatos`), a gender-filtered view of it (`contatosFiltrados`), a search term
(`pesquisaDoUsuario`), two flags saying which form is open
(`adicionarFoiClicado` for the create form, `contatoFoiSelecionado` for the edit
form), the contact last fetched for editing, and a three-control form
(`nome`, `data_nascimento`, `sexo`).

The model is functional. Every user action and every server response is a pure
transition over an immutable `Controller` value. A transition that would call
the REST backend or open a modal returns that call as an `Effect`
(`Issue(Request)` or `Open(Dialog)`). The server's answer is the argument of a
separate response transition (`OnContactsLoaded`, `OnContactCreated`,
`OnContactFetched`, `OnContactUpdated`, `OnContactRemoved`,
`OnRemovalAnswered`).

Modules:

- `Optional`: the nullable value used for reset form controls and the search term.
- `Collation`: the string order used by the sort, the lexicographic order on character codes. It stands in for `localeCompare`.
- `Contacts`: the contact record, the sortable fields, the form, the required-field rule and the gender icon.
- `Filtering`: selection of the contacts whose field holds a value, keeping list order. This is the gender filter.
- `Sorting`: a stable insertion sort on one field.
- `Majority`: calendar dates, the whole-year difference and the age-of-majority rule.
- `ContactList`: the controller state and its transitions.
- `Sessions`: properties of sequences of transitions.

## Behaviour of the code worth knowing

- **Update success does not reset the form.** Unlike cancel and save success, update success does not reset the form. It only closes both forms and reloads the list (`OnContactUpdated`, `UpdateSession`).
- **Remove success leaves the create form as it was.** On remove success only `contatoFoiSelecionado` is cleared and the form is reset. `adicionarFoiClicado` is untouched (`OnContactRemoved`).
- **Only null or empty fields are missing.** The required-field rule treats a control as missing only when it is null or the empty string. A string of blanks passes (`Contacts.Present`).
- **Reloads leave the filtered view stale.** Reloading does not recompute the filtered view, so the view can keep contacts the full list no longer holds. For example, a contact deleted while a filter is active stays in the view (`Sessions.ReloadLeavesStaleView`). Every other transition keeps a non-empty view equal, up to order, to the full list filtered by the last gender chosen (`Sessions.FilterAndClearEstablishView`, `Sessions.SortPreservesView`, `Sessions.FormTransitionsPreserveView`); clearing the filters empties it.
- **A filter that matches nothing does not restrict the sort.** A gender filter that matches no contact leaves the filtered view empty, so the next sort sorts the full list rather than the empty view (`Sessions.EmptyFilterThenSortSortsFullList`).
- **Both forms can be open at once.** Nothing keeps the two forms exclusive (`Sessions.SelectWhileCreatingOpensBoth`). Saving also does not check which form is open.
- **A cancel does not discard a pending fetch.** When the fetch for a selected contact answers after a cancel, it still fills the form while both forms are closed. A create form opened next therefore starts out holding that contact's values (`Sessions.LateFetchRefillsClosedForm`).

## Model

| member | source | states |
|---|---|---|
| Collation.Reflexive | src/app/contatos/contatos.component.ts:57 | every string sorts on or before itself under the comparison the sort uses |
| Collation.Total | src/app/contatos/contatos.component.ts:57 | any two strings are comparable: one sorts on or before the other |
| Collation.Antisymmetric | src/app/contatos/contatos.component.ts:57 | two strings that each sort on or before the other are equal |
| Collation.Transitive | src/app/contatos/contatos.component.ts:57 | the sort comparison is transitive |
| Contacts.FormOf | src/app/contatos/contatos.component.ts:121-127 | the form filled from a contact holds its name, birth date and gender, and is valid exactly when none of the three is empty |
| Contacts.EmptyFormsAreInvalid | src/app/contatos/contatos.component.ts:180-186 | neither the freshly built form (empty strings) nor a reset one (nulls) passes the required-field rule |
| Contacts.InvalidIffSomeControlEmpty | src/app/contatos/contatos.component.ts:180-186 | the form is invalid exactly when one of the three controls is null or the empty string |
| Contacts.GenderIcon | src/app/contatos/contatos.component.ts:171-177 | the Venus icon is chosen exactly for "Feminino"; every other value gets the Mars icon |
| Filtering.Matching | src/app/contatos/contatos.component.ts:62-66 | every contact selected has the value asked for, and the selection keeps the list's relative order (it is a subsequence of the list) |
| Filtering.MatchingCounts | src/app/contatos/contatos.component.ts:62-66 | the selection holds each matching contact exactly as often as the list does, and no other contact |
| Filtering.MatchingCons | src/app/contatos/contatos.component.ts:62-66 | filtering a list with a contact in front keeps that contact exactly when it matches, followed by the filtered rest |
| Filtering.MatchingIsUnique | src/app/contatos/contatos.component.ts:62-66 | any order-preserving selection of exactly the matching contacts equals the filter's result |
| Filtering.MatchingAllMatch | src/app/contatos/contatos.component.ts:62-66 | filtering a list whose contacts all match returns it whole |
| Filtering.MatchingIdempotent | src/app/contatos/contatos.component.ts:62-66 | filtering the filtered view again by the same value changes nothing |
| Filtering.MatchingRespectsPermutation | src/app/contatos/contatos.component.ts:62-66 | reordering the full list only reorders the filter's result |
| Sorting.OrderedPairwise | src/app/contatos/contatos.component.ts:52-59 | in a list ascending contact by contact, every contact sorts on or before every later one |
| Sorting.Insert | src/app/contatos/contatos.component.ts:56-58 | inserting into an ascending list adds exactly that contact, keeps the list ascending, and puts either it or the old first contact in front |
| Sorting.SortBy | src/app/contatos/contatos.component.ts:52-59 | the sorted list is a permutation of the input that is ascending in the chosen field |
| Sorting.SortOrderedIsIdentity | src/app/contatos/contatos.component.ts:52-59 | sorting a list already ascending in the field leaves it unchanged |
| Sorting.SortIdempotent | src/app/contatos/contatos.component.ts:52-59 | sorting the sorted list again on the same field changes nothing |
| Sorting.InsertStable | src/app/contatos/contatos.component.ts:56-58 | an inserted contact lands before every contact with an equal key |
| Sorting.SortStable | src/app/contatos/contatos.component.ts:56-58 | the sort is stable: contacts with equal keys keep their relative order |
| Majority.WholeYears | src/app/contatos/contatos.component.ts:104 | the difference is the number of whole years between the dates, truncated toward zero: the birth date lies on or before today minus that many years and after today minus one more year |
| Majority.IsAdult | src/app/contatos/contatos.component.ts:103-109 | a contact is an adult exactly when born on or before the same calendar day eighteen years before today |
| Majority.EighteenTodayIsAdult | src/app/contatos/contatos.component.ts:103-109 | a birth date exactly eighteen years before today counts as adult |
| Majority.OneDayShortIsMinor | src/app/contatos/contatos.component.ts:103-109 | a birth date one calendar day later than that does not |
| Majority.SeventeenTodayIsMinor | src/app/contatos/contatos.component.ts:103-109 | a birth date exactly seventeen years before today is under age |
| Majority.AdulthoodIsMonotone | src/app/contatos/contatos.component.ts:103-109 | an earlier birth date, or a later today, keeps an adult an adult |
| ContactList.OnContactsLoaded | src/app/contatos/contatos.component.ts:189-193 | the loaded list replaces the full list; the filtered view, form and flags stay as they were |
| ContactList.Sort | src/app/contatos/contatos.component.ts:43-49 | a non-empty filtered view is replaced by a sorted permutation of itself and the full list is untouched; otherwise the full list is sorted and the empty view stays empty |
| ContactList.FilterByGender | src/app/contatos/contatos.component.ts:62-66 | the view becomes exactly the full list's contacts of that gender, in list order, and is returned; the full list and everything else are unchanged |
| ContactList.ClearFilters | src/app/contatos/contatos.component.ts:165-168 | the view is emptied and the search term nulled; the full list, form and flags are unchanged |
| ContactList.AddContact | src/app/contatos/contatos.component.ts:69-71 | only the create-form flag changes, to true, and true is returned |
| ContactList.CancelEdit | src/app/contatos/contatos.component.ts:74-78 | both forms close and the form is reset; the lists are unchanged |
| ContactList.SaveContact | src/app/contatos/contatos.component.ts:83-100 | an invalid form produces no effect; a valid form with an under-age contact opens the notice and sends no create; a valid form with an adult sends one create; the state does not change |
| ContactList.OnContactCreated | src/app/contatos/contatos.component.ts:88-93 | the create response reloads the list, resets the form and closes the create form; the edit flag and lists are unchanged |
| ContactList.SelectContact | src/app/contatos/contatos.component.ts:111-118 | selecting opens the edit form at once and requests that contact by id; nothing else changes |
| ContactList.OnContactFetched | src/app/contatos/contatos.component.ts:114-127 | the fetched contact is remembered and the form takes its name, birth date and gender; lists and flags are unchanged |
| ContactList.UpdateContact | src/app/contatos/contatos.component.ts:130-132 | one update request carries the contact's id and the form's current values; no validity or age check is made |
| ContactList.OnContactUpdated | src/app/contatos/contatos.component.ts:133-138 | the update response reloads the list and closes both forms, and the form keeps its values |
| ContactList.RemoveContact | src/app/contatos/contatos.component.ts:142-149 | removing only opens the confirmation dialog for that contact |
| ContactList.OnRemovalAnswered | src/app/contatos/contatos.component.ts:147-152 | a confirmed answer sends one delete for the id of the contact the dialog was opened with; a declined one sends nothing; the state does not change |
| ContactList.OnContactRemoved | src/app/contatos/contatos.component.ts:153-158 | the delete response closes the edit form, reloads the list and resets the form; the create flag is untouched |
| Sessions.FilterTwiceIsFilterOnce | src/app/contatos/contatos.component.ts:62-66 | filtering twice by the same gender gives the same state and view as filtering once |
| Sessions.ClearThenSortSortsFullList | src/app/contatos/contatos.component.ts:43-48 | after the filters are cleared, sorting sorts the full list and the view stays empty |
| Sessions.EmptyFilterThenSortSortsFullList | src/app/contatos/contatos.component.ts:43-66 | when no contact has the chosen gender, the filter leaves the view empty and the next sort sorts the full list into an ascending permutation of it |
| Sessions.SortTwiceIsSortOnce | src/app/contatos/contatos.component.ts:43-59 | sorting the controller twice on the same field gives the state sorting once gives |
| Sessions.SortKeepsTiesInOrder | src/app/contatos/contatos.component.ts:43-59 | sorting either list keeps contacts with equal keys in their previous order |
| Sessions.FilterAndClearEstablishView | src/app/contatos/contatos.component.ts:62-66 | after a filter the view is the filter of the full list; after clearing it is empty |
| Sessions.SortPreservesView | src/app/contatos/contatos.component.ts:43-49 | sorting either list keeps the view equal, up to order, to the filter of the full list |
| Sessions.FormTransitionsPreserveView | src/app/contatos/contatos.component.ts:69-160 | every form action and every create, fetch, update and remove step keeps the view consistent with the full list |
| Sessions.ReloadLeavesStaleView | src/app/contatos/contatos.component.ts:189-193 | a reload without a deleted contact leaves that contact in the filtered view |
| Sessions.SaveCreatesIffBornByCutoff | src/app/contatos/contatos.component.ts:83-109 | a create goes out exactly when the form is valid and the birth date reads as a date on or before the same day eighteen years ago |
| Sessions.SaveSeventeenYearOldIsRefused | src/app/contatos/contatos.component.ts:83-100 | saving a contact who is seventeen today opens the under-age notice and sends no create |
| Sessions.CreateSession | src/app/contatos/contatos.component.ts:69-100 | add, save an adult, and the response: one create, one reload, the create form closed, the form reset, the lists unchanged |
| Sessions.SelectThenCancel | src/app/contatos/contatos.component.ts:74-127 | select then cancel, before or after the fetch response: lists unchanged, both forms closed, form reset |
| Sessions.LateFetchRefillsClosedForm | src/app/contatos/contatos.component.ts:74-127 | a fetch response arriving after a cancel fills the form with the fetched contact while both forms stay closed, and a create form opened next holds those values |
| Sessions.SelectFillsFormFromFetched | src/app/contatos/contatos.component.ts:111-127 | after select and fetch the edit form is open and holds the fetched record's fields |
| Sessions.UpdateSession | src/app/contatos/contatos.component.ts:130-139 | update sends the form for the contact's id; its response reloads and closes both forms without resetting the form |
| Sessions.RemoveSession | src/app/contatos/contatos.component.ts:142-160 | confirmed removal: exactly one delete for that id, then exactly one reload, edit form closed, form reset; declined removal: no effect, no change |
| Sessions.SelectWhileCreatingOpensBoth | src/app/contatos/contatos.component.ts:69-118 | selecting while the create form is open leaves both form flags set |
| Sessions.SortByNameExample | src/app/contatos/contatos.component.ts:52-59 | sorting Bruno, Ana by name gives Ana, Bruno |

## Left out

- `contatos.service.ts`: the HTTP client wrapper (URLs, headers, GET/POST/PUT/DELETE). It has no logic of its own. Its calls are the `Request` effects, and its answers are the arguments of the response transitions.
- RxJS subscriptions: a failed request never runs its callback. The model shows this by the response transition simply not being applied.
- `ngOnInit` and `ngOnDestroy`: lifecycle plumbing. `Initial` is the state after construction and form creation.
- `NgbModal`: the dialogs are `Open(Dialog)` effects. The user's answer to the removal dialog is the boolean `OnRemovalAnswered` receives, together with the dialog that was opened. A dismissed dialog never answers, so nothing is applied.
- `FormBuilder` and `Validators`: only the rule that all three controls are required is modelled.
- `localeCompare`: the locale's collation is replaced by the lexicographic order on character codes (`Collation.Le`). The two differ. Upper-case letters come before all lower-case ones in the model ("Bruno" before "ana"), where the locale interleaves them. The locale may also rank two different strings as equal, such as a precomposed "é" and "e" followed by a combining accent. The stable sort then keeps those in input order, while the model orders them by character code.
- Dynamic field access `a[parametroDeOrdenacao]`: the sort field is the enumeration `Field`. Any other name is outside the model.
- The return value of `salvarContato`, an RxJS subscription, is not modelled.
- Majority.WholeYears: moment's parsing of date strings is a parameter `parse` of the save decision. The clock is the parameter `today`, with no time of day or time zone. Moment's month-end anchoring is not reproduced, so leap-day birthdays may differ from moment by a day.
