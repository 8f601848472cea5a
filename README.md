# Running-club web app: slug, credential and schema model

This project models the small pieces of logic in a multi-tenant running-club web app.
Most of the app is form screens over a hosted relational store with built-in authentication.
The model covers three parts of it:

- **Club slug normaliser and slug field** (`components/CreateClubForm.tsx`).
  - `generateSlug` turns a club name into its URL slug. It lower-cases and trims the name, deletes every character outside `[\w\s-]`, turns each whitespace run into one `-` and collapses each run of `-`. It is modelled in module `Slug`, one function per pass.
  - The form keeps three state variables: the club name, a custom slug and the manual-mode flag. They decide whether the shown slug is generated from the name or typed by hand. Module `ClubForm` models them as a class `CreateClubForm` with two handler methods. Each method is specified by a step function `Step` on a `FormState` value, and lemmas about sequences of edits are proved over `Replay`.
- **Credential actions** (`app/auth/actions.ts`). `signup` and `login` are guard chains that end in a failed `AuthResult` or in a redirect to `/dashboard`. Module `AuthActions` models them as functions of the posted fields and of the authentication provider. The provider is a function from the request sent to the answer received.
- **Schema vocabulary** (`types/database.ts`). Module `Database` holds the three enumerations, the five table rows and each table's Insert and Update shapes. An Insert is completed to a row with the column defaults. An Update is merged into a row and touches only the columns its shape lists.

The alphabet is ASCII. Lower-casing maps `A`–`Z` only. Whitespace is space, tab, line feed, vertical tab, form feed and carriage return.

Two results show the form's help text ("only lower-case letters, digits and hyphens") is looser than the code:
- `Slug.UnderscoreSurvives`: an underscore passes through `generateSlug`.
- `ClubForm.ManualSlugMayBeMalformed`: a typed slug is stored without filtering, so punctuation and double hyphens survive in manual mode.

## Model

| member | source | states |
|---|---|---|
| `Slug.ToLowerChar` | components/CreateClubForm.tsx:25 | `A`–`Z` map to the letter 32 code points later (`a`–`z`); every other character is unchanged |
| `Slug.Lower` | components/CreateClubForm.tsx:25 | `toLowerCase`: same length, each character mapped by `ToLowerChar` in place, no upper-case letter remains |
| `Slug.LowerAppend` | components/CreateClubForm.tsx:25 | lower-casing a concatenation lower-cases each part |
| `Slug.LeadingSpaces` | components/CreateClubForm.tsx:26 | the number of whitespace characters the input starts with: all before it are whitespace, the one at it is not |
| `Slug.Trim` | components/CreateClubForm.tsx:26 | `trim`: the result is the input's slice from its first non-whitespace character on, everything after the slice is whitespace, and neither end of the result is whitespace; this fixes the result uniquely |
| `Slug.TrimOfTrimmed` | components/CreateClubForm.tsx:26 | text that neither starts nor ends with whitespace is its own `trim` |
| `Slug.TrimBlank` | components/CreateClubForm.tsx:26 | `trim` gives the empty string exactly when the input is all whitespace (both directions) |
| `Slug.StripSpecial` | components/CreateClubForm.tsx:27 | every character left is a word character, whitespace or `-`; never longer than the input |
| `Slug.StripSpecialAppend` | components/CreateClubForm.tsx:27 | the strip of a concatenation is the concatenation of the parts' strips, so each character is kept or dropped on its own |
| `Slug.StripSpecialOne` | components/CreateClubForm.tsx:27 | a single character is kept exactly when it is in `[\w\s-]` |
| `Slug.ReplaceRuns` | components/CreateClubForm.tsx:28-29 | a global replace of runs of a character class by one character: never longer than the input |
| `Slug.ReplaceRunsAppend` | components/CreateClubForm.tsx:28-29 | a replace splits over a concatenation whenever the cut does not fall inside a run |
| `Slug.ReplaceRunsOfRun` | components/CreateClubForm.tsx:28-29 | a non-empty run of class characters becomes exactly one replacement character |
| `Slug.ReplaceRunsOfPlain` | components/CreateClubForm.tsx:28-29 | a character outside the class is copied |
| `Slug.ReplaceRunsJoin` | components/CreateClubForm.tsx:28-29 | a run between parts that do not touch it becomes one replacement character between the parts' own replaces |
| `Slug.ReplaceRunsHead` | components/CreateClubForm.tsx:28-29 | the first character after a replace is the replacement when the input starts with a run, else the input's first character |
| `Slug.ReplaceRunsClass` | components/CreateClubForm.tsx:28-29 | after a replace, the replacement character is the only character of the class that remains |
| `Slug.ReplaceRunsNoAdjacent` | components/CreateClubForm.tsx:28-29 | after a replace, no two characters of the class stand next to each other |
| `Slug.HyphenateSpaces` | components/CreateClubForm.tsx:28 | `/\s+/g` to `-`: no whitespace remains |
| `Slug.HyphenateSpacesJoin` | components/CreateClubForm.tsx:28 | a whitespace run between parts that do not touch it becomes exactly one `-` |
| `Slug.HyphenateSpacesPlain` | components/CreateClubForm.tsx:28 | text without whitespace is left unchanged |
| `Slug.CollapseHyphens` | components/CreateClubForm.tsx:29 | `/-+/g` to `-`: never two `-` in a row |
| `Slug.CollapseHyphensJoin` | components/CreateClubForm.tsx:29 | a run of `-` between parts that do not touch it becomes exactly one `-` |
| `Slug.CollapseHyphensPlain` | components/CreateClubForm.tsx:29 | text without `-` is left unchanged |
| `Slug.CollapseHyphensOfSlug` | components/CreateClubForm.tsx:29 | a well-formed slug is left unchanged |
| `Slug.GenerateSlug` | components/CreateClubForm.tsx:23-30 | the result only has lower-case ASCII letters, digits, `_` and `-`, no whitespace, and no `--`; an empty or all-whitespace name gives `""` |
| `Slug.GenerateSlugJoin` | components/CreateClubForm.tsx:23-30 | two non-empty slugs that neither end nor start with `-`, separated by any whitespace run, come out joined by exactly one `-` |
| `Slug.BlankNameGivesEmpty` | components/CreateClubForm.tsx:25-26 | an empty or all-whitespace name is trimmed to nothing and gives the empty slug |
| `Slug.GenerateSlugChars` | components/CreateClubForm.tsx:24-29 | the character-class chain: lower-casing, then the three replaces, leave only slug characters |
| `Slug.SlugIsFixed` | components/CreateClubForm.tsx:23-30 | a well-formed slug comes out of `generateSlug` unchanged |
| `Slug.SlugFixedPoints` | components/CreateClubForm.tsx:23-30 | `generateSlug(t) == t` exactly when `t` is a well-formed slug |
| `Slug.GenerateSlugIdempotent` | components/CreateClubForm.tsx:23-30 | `generateSlug(generateSlug(s)) == generateSlug(s)` |
| `Slug.UnderscoreSurvives` | components/CreateClubForm.tsx:27 | `_` is kept (`generateSlug("club_lima") == "club_lima"`), although the help text at lines 131-132 announces only letters, digits and hyphens |
| `Slug.GenerateSlugKeepsWords` | components/CreateClubForm.tsx:23-30 | no letter, digit or underscore is lost: those of the slug are those of the lower-cased name, in order |
| `Slug.ReplaceRunsFixedPoint` | components/CreateClubForm.tsx:28-29 | a replace leaves alone a string whose class characters are single copies of the replacement |
| `Slug.StripSpecialKeepsKept` | components/CreateClubForm.tsx:27 | the strip pass leaves alone a string of `[\w\s-]` characters |
| `ClubForm.ManualSlug` | components/CreateClubForm.tsx:45 | the stored typed slug is never longer than the input and has no upper-case letter and no whitespace |
| `ClubForm.ManualSlugAppend` | components/CreateClubForm.tsx:45 | the typed text is stored part by part wherever the cut does not fall inside a whitespace run |
| `ClubForm.ManualSlugOfRun` | components/CreateClubForm.tsx:45 | a typed whitespace run is stored as one `-` |
| `ClubForm.ManualSlugOne` | components/CreateClubForm.tsx:45 | a typed character other than whitespace is stored lower-cased, and nothing else is filtered |
| `ClubForm.ManualSlugJoin` | components/CreateClubForm.tsx:45 | a whitespace run between parts that do not touch it is stored as one `-` between the parts' own stored forms |
| `ClubForm.ManualSlugFiltersNothingElse` | components/CreateClubForm.tsx:45 | text already lower-case and without whitespace is stored exactly as typed |
| `ClubForm.ManualSlugMayBeMalformed` | components/CreateClubForm.tsx:45 | so a stored typed slug can hold punctuation and `--`, and then it is not a well-formed slug |
| `ClubForm.ReplayKeepsConsistent` | components/CreateClubForm.tsx:18-20 | in automatic mode the custom slug stays empty after any edits |
| `ClubForm.ManualModeIsOneWay` | components/CreateClubForm.tsx:35-46 | after any edits the form is in manual mode exactly when it started in it or some edit was a slug edit; no handler resets the flag |
| `ClubForm.NameEditsKeepManualSlug` | components/CreateClubForm.tsx:35-41 | in manual mode name edits keep manual mode and leave the shown slug unchanged |
| `ClubForm.ReplayFromInitial` | components/CreateClubForm.tsx:18-46 | from a fresh form: the name is the latest typed name; manual mode holds exactly when a slug was typed; the shown slug is the latest typed slug normalised, or else the slug generated from the latest name |
| `ClubForm.CreateClubForm.Slug` | components/CreateClubForm.tsx:33 | the shown slug is the custom slug in manual mode, otherwise `generateSlug(clubName)`, which is then well formed |
| `ClubForm.CreateClubForm.constructor` | components/CreateClubForm.tsx:18-20 | the form starts with empty name, empty custom slug, automatic mode |
| `ClubForm.CreateClubForm.HandleNameChange` | components/CreateClubForm.tsx:35-41 | replaces the name; keeps the mode; clears the custom slug only in automatic mode; agrees with `Step` |
| `ClubForm.CreateClubForm.HandleSlugChange` | components/CreateClubForm.tsx:43-46 | sets manual mode; stores the typed text lower-cased with whitespace runs as `-`; keeps the name; agrees with `Step` |
| `AuthActions.SignUpRequestFor` | app/auth/actions.ts:36-44 | the request carries the posted email and password; its `full_name` is the posted full name when filled, otherwise `Corredor`, so never empty |
| `AuthActions.CredentialsFor` | app/auth/actions.ts:82-85 | `login` sends the posted email and password |
| `AuthActions.Signup` | app/auth/actions.ts:12-64 | missing email or password gives the required-fields message first; then a password under 6 characters gives the length message; a provider error gives its message, or `Error al crear la cuenta` when empty; no user gives `No se pudo crear el usuario`; it redirects to `/dashboard` exactly when the guards pass and the provider signs a user in; every returned result has `success = false` and a non-empty error |
| `AuthActions.Login` | app/auth/actions.ts:66-97 | missing email or password gives the required-fields message; any provider error gives `Credenciales inválidas`; it redirects to `/dashboard` exactly when the fields are filled and the provider reports no error; every returned result is a failure with a non-empty error |
| `AuthActions.SignupGuardsPrecedeProvider` | app/auth/actions.ts:22-34 | when a guard fails, `signup` returns without depending on the provider |
| `AuthActions.LoginGuardPrecedesProvider` | app/auth/actions.ts:75-80 | when the guard fails, `login` returns without depending on the provider |
| `AuthActions.MissingFieldSameForBoth` | app/auth/actions.ts:22-27 | with a field missing, both actions fail with the same message |
| `AuthActions.LoginHidesProviderMessage` | app/auth/actions.ts:87-93 | any two provider errors lead `login` to the same outcome, whatever their messages |
| `AuthActions.LoginSkipsLengthCheck` | app/auth/actions.ts:75-96 | a short password that `signup` refuses still reaches the provider in `login`, which redirects when the provider accepts |
| `AuthActions.LoginIgnoresMissingUser` | app/auth/actions.ts:87-96 | `login` checks only the error: an answer with no user still redirects |
| `AuthActions.NextIsIgnored` | app/auth/actions.ts:18-20 | the posted `next` field changes neither action's outcome |
| `Database.ParseRole` | types/database.ts:5 | the role names are exactly `owner`, `coach`, `runner`, each naming its role |
| `Database.ParseStatus` | types/database.ts:6 | the status names are exactly `active`, `inactive`, `pending_payment` |
| `Database.ParseAttendance` | types/database.ts:7 | the attendance names are exactly `registered`, `attended`, `skipped` |
| `Database.EnumNamesRoundTrip` | types/database.ts:5-7 | every enumeration value parses back from its name |
| `Database.CompleteProfile` | types/database.ts:72-81 | a profile row keeps the given id and fields; absent nullable fields are null; absent `created_at` is the insertion time |
| `Database.UpdateProfile` | types/database.ts:131-138 | `id` and `created_at` never change; each given field is set; each absent field keeps its value |
| `Database.ProfileUpdateReach` | types/database.ts:131-138 | some Update turns one profile into another exactly when they agree on `id` and `created_at` |
| `Database.CompleteClub` | types/database.ts:83-91 | a club row keeps name and slug; absent `branding_color` is `#000000`; absent nullable fields are null; absent id and `created_at` are generated |
| `Database.UpdateClub` | types/database.ts:140-146 | `id` and `created_at` never change; each given field is set; each absent field keeps its value |
| `Database.ClubUpdateReach` | types/database.ts:140-146 | some Update turns one club into another exactly when they agree on `id` and `created_at` |
| `Database.CompleteMembership` | types/database.ts:93-100 | a membership keeps user and club; absent role is `runner`; absent status is `pending_payment`; absent id and `joined_at` are generated |
| `Database.UpdateMembership` | types/database.ts:148-151 | only `role` and `status` can change; `id`, `user_id`, `club_id` and `joined_at` are kept; an absent field keeps its value |
| `Database.MembershipUpdateReach` | types/database.ts:148-151 | some Update turns one membership into another exactly when they agree on `id`, `user_id`, `club_id` and `joined_at` |
| `Database.CompleteEvent` | types/database.ts:102-116 | an event keeps club, title and start time; absent nullable fields are null; absent id and `created_at` are generated |
| `Database.UpdateEvent` | types/database.ts:153-163 | `id`, `club_id`, `created_by` and `created_at` never change; each given field is set; each absent field keeps its value |
| `Database.EventUpdateReach` | types/database.ts:153-163 | some Update turns one event into another exactly when they agree on `id`, `club_id`, `created_by` and `created_at` |
| `Database.CompleteAttendance` | types/database.ts:118-125 | an attendance row keeps event and user; absent status is `registered`; absent nullable fields are null; an absent id is generated |
| `Database.UpdateAttendance` | types/database.ts:165-169 | `id`, `event_id` and `user_id` never change; each given field is set; each absent field keeps its value |
| `Database.AttendanceUpdateReach` | types/database.ts:165-169 | some Update turns one attendance row into another exactly when they agree on `id`, `event_id` and `user_id` |

## Left out

- Unicode: JavaScript's `toLowerCase`, `trim` and `\s` also act on non-ASCII characters. For example, `toLowerCase` turns the Kelvin sign into an ASCII `k`, and `\s` matches the no-break space. The model fixes the ASCII alphabet, where a non-ASCII character is never lower-cased and never counts as whitespace. Lengths are counted in characters, not UTF-16 code units, so the 6-character password minimum counts characters.
- The authentication provider (`createClient`, `auth.signUp`, `auth.signInWithPassword`) is a parameter: a function from the request to an outcome (error with message, no user, or signed-in user). An error whose message is undefined is modelled as an empty message.
- `revalidatePath`, `redirect` and `console.error` are cache, navigation and logging plumbing. The redirect is the `Redirect` outcome carrying its path. Cache invalidation and logging are not modelled.
- Form fields are modelled as text or absent. A posted file in a text field is not modelled.
- The `isSignup` toggle in `app/auth/login/AuthForm.tsx` only chooses which action and which state the page shows.
- React rendering, `useActionState` pending flags and the live preview are not modelled. The form's submission is handled by `createClubAction` in `app/(dashboard)/actions.ts`, and that file is not part of this model. The membership, role-change, session and attendance actions are not part of this model either.
- `Database` values: identifiers and timestamps are opaque strings, and `location_coords` is a pair of opaque numbers. Slug uniqueness is enforced by the store and is not modelled. Column defaults for `id`, `created_at` and `joined_at` are generated by the store. Their generated values are a parameter (`Generated`), since the schema file documents no value for them.
- The `Database` table map (`Database.public.Tables`) only pairs each table with its Row, Insert and Update shapes. Those triples are the per-table datatypes.
- StripSpecial: its own contract states only what class of characters remains; which characters remain, in which order, is stated by `StripSpecialAppend` and `StripSpecialOne`, which together fix the result for every input.
- ReplaceRuns: its own contract states only the length bound; what it does to each part of its input is stated by `ReplaceRunsAppend`, `ReplaceRunsOfRun` and `ReplaceRunsOfPlain`, which together fix the result for every input (split it at the run boundaries).
- HyphenateSpaces: its own contract states only that no whitespace remains; that each whitespace run becomes one `-` and everything else stays is stated by `HyphenateSpacesJoin` and `HyphenateSpacesPlain`.
- CollapseHyphens: its own contract states only that no `--` remains; that each run of `-` becomes one `-` and everything else stays is stated by `CollapseHyphensJoin`, `CollapseHyphensPlain` and `CollapseHyphensOfSlug`.
- ManualSlug: its own contract states only the length bound and the absence of upper-case letters and whitespace; the stored value itself is stated by `ManualSlugAppend`, `ManualSlugOfRun` and `ManualSlugOne`, which together fix it for every typed text.
