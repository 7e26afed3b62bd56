# Communify dashboard and profile logic, modelled in Dafny

Communify is a client-side web application for communities and events. Almost
everything it does is presentation over a hosted backend. Two pieces hold list
and record logic of their own, and this project models and proves them:

1. **Joining a private community with an invitation code** (the Dashboard
   page's `handleJoinWithCode`). It also covers the page's "my private
   communities" selection over the same records. The remote community directory
   is a sequence of `Community` records, in the order the directory returns them.
   `Join` is the pure step `(directory, trimmed code, email) -> (outcome, directory')`,
   with outcome `InvalidCode`, `AlreadyMember(id)` or `Joined(id)`.
   `DashboardState.HandleJoinWithCode` is the handler itself. It works on the page
   state: the directory, `inviteCode`, `isJoining`, and the redirect target.
2. **Editing the allergy list on the Profile page** (`addAllergy`,
   `removeAllergy`) and filling the form from the user record.
   `WithAllergy` and `WithoutAllergy` compute the new list. `ProfileEditor` holds
   `formData` and the `newAllergy` input, and its methods replace them as the
   component's setters do.

JavaScript's `String.prototype.trim` is modelled in `JsString.Trim`. It strips
the ECMAScript WhiteSpace and LineTerminator code points from both ends.

Files: `common.dfy` (Option, duplicate-free sequences), `js_string.dfy`,
`dashboard.dfy`, `profile.dfy`.

The model follows the code where it differs from the intended design of the join:

- The code keeps `members` as a list. It appends the email at the end; it does not
  take a set union.
- The code does not check whether a user is signed in. The handler takes the
  signed-in user's email as a parameter.
- The lookup is not limited to closed communities. Any record whose invitation
  code matches can be joined.

## Model

| member | source | states |
|---|---|---|
| `JsString.Trim` | src/components/Dashboard.jsx:53 | the trimmed code is empty exactly when the input is all white space; otherwise it neither starts nor ends with white space (its exact value is fixed by `JsString.TrimIsInnerSlice`) |
| `JsString.TrimIsInnerSlice` | src/components/src/components/Profile.jsx:66 | `trim()` returns the unique slice that has only white space outside it and no white space at either end |
| `JsString.TrimIdempotent` | src/components/src/components/Profile.jsx:66 | trimming an already trimmed value changes nothing |
| `Dashboard.MyCommunities` | src/components/Dashboard.jsx:48-50 | a community is selected exactly when it is in the list, is closed, and was created by the user or lists the user as a member |
| `Dashboard.MyCommunitiesAppend` | src/components/Dashboard.jsx:48-50 | the selection keeps the original order (it distributes over concatenation) |
| `Dashboard.FirstWithCode` | src/components/Dashboard.jsx:56-64 | the lookup is empty exactly when no record has the code; otherwise it names the first record in directory order that has it |
| `Dashboard.UpdateMembers` | src/components/Dashboard.jsx:68-70 | the update replaces the members of the records with that id and changes nothing else |
| `Dashboard.Join` | src/components/Dashboard.jsx:56-74 | the outcome is InvalidCode exactly when no record has the code; InvalidCode and AlreadyMember leave the directory unchanged; otherwise the outcome names the first matching community, and it is AlreadyMember exactly when the email is among its members (absent members count as none) |
| `Dashboard.JoinedTouchesOnlyChosen` | src/components/Dashboard.jsx:64-70 | with distinct ids, a Joined outcome sets only the chosen community's members, to the old members followed by the email; every other record and field is unchanged |
| `Dashboard.JoinKeepsMembersSets` | src/components/Dashboard.jsx:67-70 | if no member list has duplicates before a join, none has any afterwards |
| `Dashboard.JoinTwice` | src/components/Dashboard.jsx:67-74 | after a Joined outcome, the same join returns AlreadyMember for the same community and changes nothing |
| `Dashboard.JoinMakesMine` | src/components/Dashboard.jsx:48-70 | after a successful or already-member join of a closed community, that community is among the user's private communities |
| `Dashboard.DashboardState.constructor` | src/components/Dashboard.jsx:20-22 | the page starts with an empty code, not joining, and no redirect |
| `Dashboard.DashboardState.HandleJoinWithCode` | src/components/Dashboard.jsx:52-79 | a blank code changes nothing, not even `isJoining`; otherwise the outcome and the new directory are Join's on the trimmed code, and `isJoining` ends false; InvalidCode keeps the code and sets no redirect; the other outcomes clear the code and redirect to the chosen community's id |
| `Profile.OrEmpty` | src/components/src/components/Profile.jsx:38-42 | a missing field reads as '', and a present one is copied |
| `Profile.FormFromUser` | src/components/src/components/Profile.jsx:37-43 | every form field is copied from the user record, with '' for a missing string field and [] for missing allergies |
| `Profile.FormFromEmptyUser` | src/components/src/components/Profile.jsx:21-43 | loading a record with no fields gives the initial form |
| `Profile.FormFromUserRoundTrip` | src/components/src/components/Profile.jsx:37-43 | loading a record that has every field gives back exactly those fields |
| `Profile.WithAllergy` | src/components/src/components/Profile.jsx:66-69 | a blank or already listed trimmed input leaves the list unchanged; otherwise the list becomes the old list followed by the trimmed input; the old list is always a prefix, the entries are the old ones plus a non-blank trimmed input, and a duplicate-free list stays duplicate-free |
| `Profile.WithAllergyIdempotent` | src/components/src/components/Profile.jsx:65-73 | adding the same input a second time changes nothing |
| `Profile.WithoutAllergy` | src/components/src/components/Profile.jsx:78 | the removed value no longer occurs, and every other value keeps its number of occurrences |
| `Profile.WithoutAllergyAppend` | src/components/src/components/Profile.jsx:78 | removal keeps the remaining entries in their original order (it distributes over concatenation) |
| `Profile.WithoutAbsentAllergy` | src/components/src/components/Profile.jsx:78 | removing a value that is not listed leaves the list as it is |
| `Profile.WithoutAllergyKeepsNoDuplicates` | src/components/src/components/Profile.jsx:75-79 | removal keeps a duplicate-free list duplicate-free |
| `Profile.WithoutAllergyIdempotent` | src/components/src/components/Profile.jsx:75-79 | removing twice is removing once |
| `Profile.AddThenRemove` | src/components/src/components/Profile.jsx:65-80 | adding a new, non-blank value and then removing it restores the original list |
| `Profile.ProfileEditor.constructor` | src/components/src/components/Profile.jsx:20-28 | before loading, there is no user, the form is the initial form, and the input is empty |
| `Profile.ProfileEditor.LoadUser` | src/components/src/components/Profile.jsx:35-43 | loading sets the user and fills the form from the record; the input is untouched |
| `Profile.ProfileEditor.AddAllergy` | src/components/src/components/Profile.jsx:65-73 | the list becomes `WithAllergy` of the old list and input; the input is cleared exactly when the list grew; every other form field is unchanged; no duplicates are introduced |
| `Profile.ProfileEditor.RemoveAllergy` | src/components/src/components/Profile.jsx:75-80 | the list becomes `WithoutAllergy` of the old list, so the value is gone; every other form field and the input are unchanged |

## Left out

- The backend SDK (`auth.me`, `entities.Community.filter/list/update`, `auth.updateMe`, file upload) is foreign code. The directory is a sequence of records and the user a record. `filter({ invitation_code })` is treated as exact string equality in directory order. `update(id, …)` is treated as a replace of the members of every record with that id. Record ids are assumed unique, and `Dashboard.JoinedTouchesOnlyChosen` requires it (`DistinctIds`) to conclude that no other record changes.
- Remote-call failures are left out: neither a missing session nor a failed lookup or update is modelled. In the code, a failed lookup or update rejects the handler's promise before `isJoining` is reset.
- Concurrent joins by several clients are left out: their read-modify-write race on `members` is not a property of one sequential run.
- Toast messages, `window.location` redirects, React hooks and `useQuery` caching are UI plumbing. The redirect is modelled only as the `redirectTo` community id.
- The `user == null` states of `myCommunities` are left out. There `user?.email` is undefined, but `allCommunities` stays empty until a user is loaded.
- Dashboard.MyCommunities: the community type is an enumeration `Open | Closed`, not the raw string the code compares with `'closed'`.
- `handleSave`, `handleAvatarUpload` and `resetOnboarding` are left out. Each is a single remote call with no logic of its own.
- The `isSaving`/`isUploading` flags, the phone and notes `onChange` setters, and the input's `onChange` are left out for the same reason.
- Date formatting of `event_date` is left out: it relies on a foreign library with locale and time-zone behaviour.
- The Home page is left out: it is static marketing UI.
- Strings are sequences of Unicode scalar values, whereas JavaScript strings are sequences of UTF-16 code units. Lone surrogates cannot be represented, and lengths count code points. Trimming, `includes` and `===` agree on well-formed strings, since every white-space character is a single code unit.
- The intermediate state in which `isJoining` is true during the lookup is not stated. The contract of `HandleJoinWithCode` describes only the final state.
