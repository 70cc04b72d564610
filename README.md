# Anniversary app: a verified model of its core

The anniversary app pairs two phones: a boy's and a girl's.
- **Pairing.** The boy sets up a couple. This stores his profile and an anniversary record, and the record gets a random six-symbol pairing code. The girl types that code to redeem it. Her profile is created and its id is written into the record's `girlId`.
- **Delivery.** The boy writes one wish message per month. A background job delivers the wish for a given month by setting its delivered flag.
- **Reactions.** The girl's screen shows the anniversary's wishes as the store changes. Her reaction to a wish is stored as that wish's delivery status.

The store is modelled as four maps keyed by id: anniversaries, users, wishes and delivery statuses. These are the fields of the class `Repository.AnniversaryRepository`.
- **Failures.** Each store call that can fail takes a `bool` flag saying whether it succeeds. A failed call writes nothing.
- **Environment values.** The clock (`now`) and the messaging token (`deviceToken`) are parameters.
- **Choices.** New keys and pairing codes are nondeterministic. They are written with `:|`.

The store lists a collection's children in key order, modelled as lexicographic order on strings (module `KeyOrder`). Query results and snapshot lists are therefore functions of the map.

The view models are classes over their UI state. They keep a ghost history `states` of every value the UI state took, so the loading state that each operation passes through is part of its contract.

Modules:
- `Model` describes the records and their defaults.
- `KeyOrder` gives the child order.
- `Repository` holds the repository and the pure functions it uses:
  - the code alphabet;
  - the filter-and-sort of an anniversary's wishes;
  - the lookup by code;
  - the record each write leaves.
- `CodeEntry` is the girl's redemption.
- `CodeEntryScreen` holds the code field's input rules, the verify guard and the digit boxes.
- `BoySetup` is the boy's setup.
- `ReminderWorker` is the monthly delivery job and its idempotence.
- `WishDisplay` is the girl's wish list and reactions.

Where the code and its description differ, the model follows the code:
- **Month numbers.** No months-since-start arithmetic is done anywhere. The job's month comes from its input data, with 1 as the default.
- **Flag write.** The job's flag write swallows failures, so the job reports success even when that write fails.
- **Case.** Codes are uppercased only in the input field. The repository lookup is exact and case-sensitive.
- **Which record.** The lookup returns the record with the least key among those holding the code.
- **Link.** Linking does not check that `girlId` was empty. Only the view model checks this, before it creates the profile.
- **Reactions.** A reaction does not check whether the wish was already read. It writes a fresh status each time, so `readAt` becomes the time of the latest reaction and any stored comment is cleared.

## Model

| member | source | states |
|---|---|---|
| Model.DefaultAnniversary | app/src/main/kotlin/com/anniversary/app/data/model/Anniversary.kt:5-14 | a new record has empty id, boyId, girlId and code, is active, and takes its three dates from the current time |
| Model.DefaultWishMessage | app/src/main/kotlin/com/anniversary/app/data/model/Anniversary.kt:16-33 | a new wish is for month 1, is undelivered with no delivery date and no schedule, has confetti, no media, and the pink/white colours |
| Model.DefaultUserProfile | app/src/main/kotlin/com/anniversary/app/data/model/Anniversary.kt:35-46 | a new profile has role BOY, is offline, and has no anniversary id, device token, email or picture |
| Model.DefaultDeliveryStatus | app/src/main/kotlin/com/anniversary/app/data/model/Anniversary.kt:52-58 | a new status is unread, with no read date, reaction or comment |
| KeyOrder.SortedKeys | app/src/main/kotlin/com/anniversary/app/data/repository/AnniversaryRepository.kt:87 | a collection's children are listed in strictly increasing key order, each key exactly once |
| KeyOrder.ChildrenOf | app/src/main/kotlin/com/anniversary/app/data/repository/AnniversaryRepository.kt:101-102 | a snapshot lists the child stored under each key in key order, and holds exactly the stored values |
| Repository.GenerateCoupleCode | app/src/main/kotlin/com/anniversary/app/data/repository/AnniversaryRepository.kt:140-143 | the code has exactly six characters, each from A-Z0-9 |
| Repository.PushKey | app/src/main/kotlin/com/anniversary/app/data/repository/AnniversaryRepository.kt:28 | a generated key is non-empty and not used by any child yet |
| Repository.OfAnniversary | app/src/main/kotlin/com/anniversary/app/data/repository/AnniversaryRepository.kt:103 | a wish is kept exactly when it is in the input and belongs to the anniversary, and the result is no longer than the input |
| Repository.OfAnniversaryCounts | app/src/main/kotlin/com/anniversary/app/data/repository/AnniversaryRepository.kt:103 | the filter keeps every wish of the anniversary as many times as the input holds it, and drops every other wish |
| Repository.OfAnniversaryAppend | app/src/main/kotlin/com/anniversary/app/data/repository/AnniversaryRepository.kt:103 | filtering a concatenation is the concatenation of the filtered parts, so the filter keeps the input order |
| Repository.InsertByMonth | app/src/main/kotlin/com/anniversary/app/data/repository/AnniversaryRepository.kt:104 | inserting into a month-sorted list keeps it sorted and adds one element |
| Repository.SortByMonth | app/src/main/kotlin/com/anniversary/app/data/repository/AnniversaryRepository.kt:104 | the result is sorted non-decreasing by month and has the input's length |
| Repository.SortByMonthPermutes | app/src/main/kotlin/com/anniversary/app/data/repository/AnniversaryRepository.kt:104 | the sort is a permutation of its input |
| Repository.SortByMonthIsStable | app/src/main/kotlin/com/anniversary/app/data/repository/AnniversaryRepository.kt:89 | the sort is stable: the wishes of each month keep their input order |
| Repository.WishesForAnniversary | app/src/main/kotlin/com/anniversary/app/data/repository/AnniversaryRepository.kt:87-89 | the list is month-sorted, holds only the anniversary's wishes, holds every stored wish of that anniversary, and permutes the filtered snapshot |
| Repository.WishesForAnniversaryTiesInKeyOrder | app/src/main/kotlin/com/anniversary/app/data/repository/AnniversaryRepository.kt:87-89 | wishes of the same month come out in key order |
| Repository.ObserveWishes | app/src/main/kotlin/com/anniversary/app/data/repository/AnniversaryRepository.kt:97-117 | a subscription emits one list per snapshot of the wishes collection |
| Repository.ObservedEmission | app/src/main/kotlin/com/anniversary/app/data/repository/AnniversaryRepository.kt:100-106 | emission i holds exactly the anniversary's wishes in snapshot i, taken from the whole collection and sorted by month |
| Repository.FirstWithCodeIsLeast | app/src/main/kotlin/com/anniversary/app/data/repository/AnniversaryRepository.kt:45 | no record with a smaller key than the first hit holds the code |
| Repository.NoChildWithCode | app/src/main/kotlin/com/anniversary/app/data/repository/AnniversaryRepository.kt:49 | when no child in the snapshot has the code, no stored record has it |
| Repository.FindKeyByCode | app/src/main/kotlin/com/anniversary/app/data/repository/AnniversaryRepository.kt:42-49 | the key found holds exactly the code and no smaller key holds it; the result is none exactly when no record holds the code |
| Repository.FindByCode | app/src/main/kotlin/com/anniversary/app/data/repository/AnniversaryRepository.kt:40-54 | the record found is stored and has exactly the given code, case-sensitively; the result is none exactly when no record has it |
| Repository.FindKeyByCodeDependsOnCodesOnly | app/src/main/kotlin/com/anniversary/app/data/repository/AnniversaryRepository.kt:42-45 | two stores with the same keys and the same codes give the same lookup result |
| Repository.LinkGirl | app/src/main/kotlin/com/anniversary/app/data/repository/AnniversaryRepository.kt:145-152 | the link overwrites girlId whatever it held, changes no other field or record, and creates a default record when the key is missing |
| Repository.LinkGirlKeepsCodes | app/src/main/kotlin/com/anniversary/app/data/repository/AnniversaryRepository.kt:147 | linking a stored record adds no key and changes no code |
| Repository.LinkGirlKeepsWellKeyed | app/src/main/kotlin/com/anniversary/app/data/repository/AnniversaryRepository.kt:147 | linking a stored record keeps every anniversary under its own id |
| Repository.MarkDelivery | app/src/main/kotlin/com/anniversary/app/data/repository/AnniversaryRepository.kt:119-129 | setting the flag also sets deliveredAt to now, and clearing it clears deliveredAt; no other field or wish changes |
| Repository.MarkStoredWish | app/src/main/kotlin/com/anniversary/app/data/repository/AnniversaryRepository.kt:121-125 | on a stored wish only the two fields change, and every wish stays under its own id |
| Repository.MarkKeepsWellKeyed | app/src/main/kotlin/com/anniversary/app/data/repository/AnniversaryRepository.kt:125 | marking a stored wish keeps every wish under its own id |
| Repository.PutStatus | app/src/main/kotlin/com/anniversary/app/data/repository/AnniversaryRepository.kt:131-138 | the status is stored under its wish id, and every other status is kept |
| Repository.LastStatusWins | app/src/main/kotlin/com/anniversary/app/data/repository/AnniversaryRepository.kt:133 | a second status for the same wish replaces the first |
| Repository.ApplyUserUpdates | app/src/main/kotlin/com/anniversary/app/data/repository/AnniversaryRepository.kt:156 | each of the six text fields (id, name, email, picture, anniversary id, device token) is set exactly when the update names it and kept otherwise; the role follows a BOY or GIRL update; online flag and dates are kept |
| Repository.UpdatedRole | app/src/main/kotlin/com/anniversary/app/data/repository/AnniversaryRepository.kt:156 | an update naming BOY or GIRL sets that role, and any other update keeps the current role |
| Repository.UpdateUser | app/src/main/kotlin/com/anniversary/app/data/repository/AnniversaryRepository.kt:154-161 | only the named user changes, by the update; a missing user is created from defaults |
| Repository.UpdateUserIdempotent | app/src/main/kotlin/com/anniversary/app/data/repository/AnniversaryRepository.kt:154-161 | applying the same update to a user twice leaves the users as one application did |
| Repository.AnniversaryRepository.constructor | app/src/main/kotlin/com/anniversary/app/data/repository/AnniversaryRepository.kt:15-24 | the four collections start empty, with every record under its own id |
| Repository.AnniversaryRepository.CreateAnniversary | app/src/main/kotlin/com/anniversary/app/data/repository/AnniversaryRepository.kt:26-38 | on success the record is stored under a fresh id with a valid code, only id and code are replaced, and the value returned is the value stored; on failure nothing changes. Every record stays under its own id |
| Repository.AnniversaryRepository.FindAnniversaryByCode | app/src/main/kotlin/com/anniversary/app/data/repository/AnniversaryRepository.kt:40-54 | the result is the exact-code lookup, or failure, and the store is unchanged |
| Repository.AnniversaryRepository.CreateUser | app/src/main/kotlin/com/anniversary/app/data/repository/AnniversaryRepository.kt:56-66 | on success the profile is stored under a fresh id with the device token; on failure nothing changes. Records stay under their own ids |
| Repository.AnniversaryRepository.SaveWishMessage | app/src/main/kotlin/com/anniversary/app/data/repository/AnniversaryRepository.kt:68-77 | on success the wish is stored under a fresh id, and that is the only change. Every wish stays under its own id |
| Repository.AnniversaryRepository.GetWishesForAnniversary | app/src/main/kotlin/com/anniversary/app/data/repository/AnniversaryRepository.kt:79-95 | on success the list is sorted by month and holds exactly the anniversary's stored wishes |
| Repository.AnniversaryRepository.UpdateWishDeliveryStatus | app/src/main/kotlin/com/anniversary/app/data/repository/AnniversaryRepository.kt:119-129 | the flag write is applied when it succeeds; a failure is swallowed and leaves the store as it was. A write to a stored wish keeps every wish under its own id |
| Repository.AnniversaryRepository.SaveDeliveryStatus | app/src/main/kotlin/com/anniversary/app/data/repository/AnniversaryRepository.kt:131-138 | on success the status replaces whatever was stored for its wish; the other maps are unchanged |
| Repository.AnniversaryRepository.LinkGirlToAnniversary | app/src/main/kotlin/com/anniversary/app/data/repository/AnniversaryRepository.kt:145-152 | on success the record gets the unconditional girlId write; the other maps are unchanged. Linking a stored record keeps every record under its own id |
| Repository.AnniversaryRepository.UpdateUserProfile | app/src/main/kotlin/com/anniversary/app/data/repository/AnniversaryRepository.kt:154-161 | on success only the user changes, by the update. Records stay under their own ids |
| CodeEntry.Pairing | app/src/main/kotlin/com/anniversary/app/ui/screens/girl/CodeEntryViewModel.kt:35-92 | each of the six outcomes holds exactly when its condition does: lookup failed; no record with the code; girl already set; profile write failed after a free record was found; link write failed after the profile was created; paired |
| CodeEntry.ErrorText | app/src/main/kotlin/com/anniversary/app/ui/screens/girl/CodeEntryViewModel.kt:39-90 | only the paired outcome shows no error text; every failure shows one |
| CodeEntry.GirlProfile | app/src/main/kotlin/com/anniversary/app/ui/screens/girl/CodeEntryViewModel.kt:63-67 | the profile created has role GIRL, the given name, and the record's id as anniversaryId |
| CodeEntry.Redemption | app/src/main/kotlin/com/anniversary/app/ui/screens/girl/CodeEntryViewModel.kt:29-101 | a redemption always ends out of loading; it either leaves the users as they were or adds the girl's profile with its id and token, and it either leaves the records as they were or links the found record to her |
| CodeEntry.RedemptionByOutcome | app/src/main/kotlin/com/anniversary/app/ui/screens/girl/CodeEntryViewModel.kt:29-101 | a redemption ends out of loading with its outcome's error text, or with the anniversary id once paired. It writes nothing before the profile is created. A failed link keeps the new profile with no rollback. Pairing sets the record's girlId to the new profile's id |
| CodeEntry.FoundIsStored | app/src/main/kotlin/com/anniversary/app/ui/screens/girl/CodeEntryViewModel.kt:81 | when every record is under its own id, the record the code finds is stored under its id, the key the link writes to |
| CodeEntry.RedemptionKeepsWellKeyed | app/src/main/kotlin/com/anniversary/app/ui/screens/girl/CodeEntryViewModel.kt:29-101 | a redemption keeps every record under its own id |
| CodeEntry.RedeemedCodeIsInUse | app/src/main/kotlin/com/anniversary/app/ui/screens/girl/CodeEntryViewModel.kt:54-60 | after a successful redemption, redeeming the same code again ends with "already in use" |
| CodeEntry.LinkedRecordKeepsCode | app/src/main/kotlin/com/anniversary/app/data/repository/AnniversaryRepository.kt:145-152 | after the link, the code still finds the same record, now carrying the new girlId |
| CodeEntry.CodeEntryViewModel.constructor | app/src/main/kotlin/com/anniversary/app/ui/screens/girl/CodeEntryViewModel.kt:15-26 | the UI state starts out of loading, with no anniversary id and no error, and the history holds just that state |
| CodeEntry.CodeEntryViewModel.VerifyCode | app/src/main/kotlin/com/anniversary/app/ui/screens/girl/CodeEntryViewModel.kt:29-101 | the UI state passes through loading with the error cleared. The final state and store are the redemption's. A created profile has a fresh id. Wishes and statuses are untouched. Every record stays under its own id |
| CodeEntry.CodeEntryViewModel.Enroll | app/src/main/kotlin/com/anniversary/app/ui/screens/girl/CodeEntryViewModel.kt:63-92 | a failed profile creation writes nothing and shows the profile error; otherwise the profile is stored under a fresh id with the device token, and the link is written and the anniversary id shown when it succeeds, the link error shown when it fails |
| CodeEntryScreen.IsLetterOrDigit | app/src/main/kotlin/com/anniversary/app/ui/screens/girl/CodeEntryScreen.kt:130 | a letter or digit is never whitespace |
| CodeEntryScreen.IsBlank | app/src/main/kotlin/com/anniversary/app/ui/screens/girl/CodeEntryScreen.kt:144 | an empty text is blank, and a blank text holds no letter or digit |
| CodeEntryScreen.ToUpper | app/src/main/kotlin/com/anniversary/app/ui/screens/girl/CodeEntryScreen.kt:131 | lower-case letters map to their capitals, and every other character is kept |
| CodeEntryScreen.Uppercase | app/src/main/kotlin/com/anniversary/app/ui/screens/girl/CodeEntryScreen.kt:131 | the text is uppercased character by character and keeps its length |
| CodeEntryScreen.AcceptsCode | app/src/main/kotlin/com/anniversary/app/ui/screens/girl/CodeEntryScreen.kt:130 | an accepted edit stays within six characters once uppercased and holds no whitespace |
| CodeEntryScreen.UpperInAlphabet | app/src/main/kotlin/com/anniversary/app/ui/screens/girl/CodeEntryScreen.kt:130-131 | an uppercased letter or digit is in the pairing alphabet |
| CodeEntryScreen.AcceptedIsCodeText | app/src/main/kotlin/com/anniversary/app/ui/screens/girl/CodeEntryScreen.kt:129-133 | an accepted edit, once uppercased, is at most six alphabet symbols |
| CodeEntryScreen.CodeTextIsAccepted | app/src/main/kotlin/com/anniversary/app/ui/screens/girl/CodeEntryScreen.kt:129-133 | conversely, the field accepts any code text and leaves it unchanged by uppercasing |
| CodeEntryScreen.CanVerify | app/src/main/kotlin/com/anniversary/app/ui/screens/girl/CodeEntryScreen.kt:144 | the guard lets through only a non-empty name, and code text that passes it is a complete couple code |
| CodeEntryScreen.VerifyButtonEnabled | app/src/main/kotlin/com/anniversary/app/ui/screens/girl/CodeEntryScreen.kt:149 | an enabled button's click passes the guard; the button is disabled while loading, and otherwise enabled exactly when the guard holds |
| CodeEntryScreen.EnabledButtonSendsCoupleCode | app/src/main/kotlin/com/anniversary/app/ui/screens/girl/CodeEntryScreen.kt:143-149 | a click on the enabled button passes the guard and sends a code the generator could produce |
| CodeEntryScreen.DigitBox | app/src/main/kotlin/com/anniversary/app/ui/screens/girl/CodeEntryScreen.kt:116-120 | box i shows code[i], or nothing past the end, and has the focus exactly when i equals the code's length |
| CodeEntryScreen.BoxesSpellCode | app/src/main/kotlin/com/anniversary/app/ui/screens/girl/CodeEntryScreen.kt:116-120 | the first n boxes side by side spell the code's first n characters |
| CodeEntryScreen.BoxesPastCodeAreEmpty | app/src/main/kotlin/com/anniversary/app/ui/screens/girl/CodeEntryScreen.kt:116-120 | the boxes together spell the whole code |
| CodeEntryScreen.FocusedBox | app/src/main/kotlin/com/anniversary/app/ui/screens/girl/CodeEntryScreen.kt:119 | a short code has exactly one focused box, and a full code has none |
| CodeEntryScreen.CodeEntryScreenState.constructor | app/src/main/kotlin/com/anniversary/app/ui/screens/girl/CodeEntryScreen.kt:31-32 | both fields start empty, which satisfies the invariant |
| CodeEntryScreen.CodeEntryScreenState.OnCodeValueChange | app/src/main/kotlin/com/anniversary/app/ui/screens/girl/CodeEntryScreen.kt:129-133 | an accepted edit is stored uppercased, and any other edit leaves the code. The invariant (at most six alphabet symbols) is kept |
| CodeEntryScreen.CodeEntryScreenState.OnNameValueChange | app/src/main/kotlin/com/anniversary/app/ui/screens/girl/CodeEntryScreen.kt:103 | the name takes the edit, the code is kept, and the invariant is preserved |
| CodeEntryScreen.CodeEntryScreenState.OnVerifyClick | app/src/main/kotlin/com/anniversary/app/ui/screens/girl/CodeEntryScreen.kt:143-147 | the view model is called exactly when the code has six symbols and the name is not blank. A call sends a valid couple code, appends the loading state and the redemption's state to the history, and leaves wishes and statuses as they were; records stay under their own ids. Without a call the view model's state and store are unchanged |
| BoySetup.BoyProfile | app/src/main/kotlin/com/anniversary/app/ui/screens/boy/BoySetupViewModel.kt:40-43 | the profile created has role BOY and the given name, with no id, anniversary or token yet |
| BoySetup.NewAnniversary | app/src/main/kotlin/com/anniversary/app/ui/screens/boy/BoySetupViewModel.kt:57-62 | the record created points at the boy, has the start date, an empty girlId, and is active |
| BoySetup.BackLinkSetsAnniversaryId | app/src/main/kotlin/com/anniversary/app/ui/screens/boy/BoySetupViewModel.kt:69-72 | the back-link sets only the profile's anniversaryId |
| BoySetup.BoySetupViewModel.constructor | app/src/main/kotlin/com/anniversary/app/ui/screens/boy/BoySetupViewModel.kt:19-31 | the UI state starts out of loading, with no anniversary id, code or error, and the history holds just that state |
| BoySetup.BoySetupViewModel.CreateAnniversary | app/src/main/kotlin/com/anniversary/app/ui/screens/boy/BoySetupViewModel.kt:34-92 | the UI state passes through loading and ends out of it, and records stay under their own ids. The profile comes first, and if it fails no record exists. A failed record leaves the profile without an anniversary. On success the record points at the boy, the profile is back-linked when that write succeeds, and success is shown either way |
| BoySetup.BoySetupViewModel.RegisterAnniversary | app/src/main/kotlin/com/anniversary/app/ui/screens/boy/BoySetupViewModel.kt:57-84 | the record and back-link steps, with the anniversary id and code shown on success; records stay under their own ids |
| ReminderWorker.GetString | app/src/main/kotlin/com/anniversary/app/worker/AnniversaryReminderWorker.kt:22 | a string is read back exactly when one is stored under the key |
| ReminderWorker.GetInt | app/src/main/kotlin/com/anniversary/app/worker/AnniversaryReminderWorker.kt:24 | a stored integer is read back, and otherwise the default is returned |
| ReminderWorker.CreateInputData | app/src/main/kotlin/com/anniversary/app/worker/AnniversaryReminderWorker.kt:63-67 | the input data holds exactly the two keys |
| ReminderWorker.InputDataRoundTrip | app/src/main/kotlin/com/anniversary/app/worker/AnniversaryReminderWorker.kt:63-67 | decoding the encoded input gives back the anniversary id and the month |
| ReminderWorker.MonthOf | app/src/main/kotlin/com/anniversary/app/worker/AnniversaryReminderWorker.kt:24 | the month is the integer stored under the month key, or 1 when there is none |
| ReminderWorker.MonthDefaultsToOne | app/src/main/kotlin/com/anniversary/app/worker/AnniversaryReminderWorker.kt:24 | a missing month number means month 1 |
| ReminderWorker.FindWishForMonth | app/src/main/kotlin/com/anniversary/app/worker/AnniversaryReminderWorker.kt:33 | the find returns the first wish of the month in the list, and none exactly when the list has no wish of that month |
| ReminderWorker.Target | app/src/main/kotlin/com/anniversary/app/worker/AnniversaryReminderWorker.kt:22-33 | the target is a stored wish of the anniversary and month, and none exactly when there is no such wish |
| ReminderWorker.Tick | app/src/main/kotlin/com/anniversary/app/worker/AnniversaryReminderWorker.kt:20-53 | failure exactly when there is no anniversary id, retry exactly when the fetch fails, and success otherwise. There is no write on failure, retry, a failed write, a missing target or an already delivered target |
| ReminderWorker.Deliver | app/src/main/kotlin/com/anniversary/app/worker/AnniversaryReminderWorker.kt:35-37 | only an undelivered target is written, and only when the write succeeds |
| ReminderWorker.TickMarksOnlyTarget | app/src/main/kotlin/com/anniversary/app/worker/AnniversaryReminderWorker.kt:35-37 | a run with an undelivered target marks exactly that wish delivered at now, and every wish stays under its own id |
| ReminderWorker.TickKeepsWellKeyed | app/src/main/kotlin/com/anniversary/app/worker/AnniversaryReminderWorker.kt:35-37 | one run keeps every wish under its own id |
| ReminderWorker.WishesForAnniversaryReplace | app/src/main/kotlin/com/anniversary/app/data/repository/AnniversaryRepository.kt:87-89 | changing a wish without changing its anniversary or month changes it in place in the sorted list |
| ReminderWorker.TickIdempotent | app/src/main/kotlin/com/anniversary/app/worker/AnniversaryReminderWorker.kt:35-37 | a second run with the same input after a successful first run leaves the store as the first run left it, whatever its own calls do |
| ReminderWorker.AnniversaryReminderWorker.constructor | app/src/main/kotlin/com/anniversary/app/worker/AnniversaryReminderWorker.kt:14-18 | the worker runs on the input data and the repository it is given |
| ReminderWorker.AnniversaryReminderWorker.DoWork | app/src/main/kotlin/com/anniversary/app/worker/AnniversaryReminderWorker.kt:20-53 | the result and the new wishes are those of one run. Anniversaries, users and statuses are unchanged, and every wish stays under its own id |
| WishDisplay.ShouldShowWish | app/src/main/kotlin/com/anniversary/app/ui/screens/girl/WishDisplayViewModel.kt:52-56 | every wish may be shown, whatever its dates |
| WishDisplay.VisibleWishes | app/src/main/kotlin/com/anniversary/app/ui/screens/girl/WishDisplayViewModel.kt:40 | the filter keeps exactly the delivered or showable wishes |
| WishDisplay.AllWishesVisible | app/src/main/kotlin/com/anniversary/app/ui/screens/girl/WishDisplayViewModel.kt:52-56 | since every wish is showable, the list shown is the emitted list, in order and with undelivered wishes included |
| WishDisplay.CancelText | app/src/main/kotlin/com/anniversary/app/ui/screens/girl/WishDisplayViewModel.kt:46 | a cancellation shows the error's text, or "Failed to load messages" when it has none |
| WishDisplay.ReactionStatus | app/src/main/kotlin/com/anniversary/app/ui/screens/girl/WishDisplayViewModel.kt:61-66 | a reaction status is for the wish, read, read at now, carries the reaction, and has no comment |
| WishDisplay.LastReactionWins | app/src/main/kotlin/com/anniversary/app/ui/screens/girl/WishDisplayViewModel.kt:58-71 | reacting twice to a wish keeps only the second reaction and its read time, with no comment |
| WishDisplay.Emissions | app/src/main/kotlin/com/anniversary/app/ui/screens/girl/WishDisplayViewModel.kt:37-41 | each emitted list gives one state that is out of loading, keeps the error text, and shows the filtered list |
| WishDisplay.ShownAfterSnapshot | app/src/main/kotlin/com/anniversary/app/ui/screens/girl/WishDisplayViewModel.kt:37-41 | the list shown after snapshot j is exactly that snapshot's wishes of the anniversary, sorted by month |
| WishDisplay.WishDisplayViewModel.constructor | app/src/main/kotlin/com/anniversary/app/ui/screens/girl/WishDisplayViewModel.kt:16-27 | the UI state starts out of loading, with no wishes and no error, and the history holds just that state |
| WishDisplay.WishDisplayViewModel.LoadWishes | app/src/main/kotlin/com/anniversary/app/ui/screens/girl/WishDisplayViewModel.kt:30-50 | loading is set before subscribing, and each snapshot adds one state. The list shown at the end is the last snapshot's sorted wishes of the anniversary, or the earlier list when there was no snapshot. A cancellation adds a final state that is the last one with loading cleared and the error text set, so the list shown is kept |
| WishDisplay.WishDisplayViewModel.Collect | app/src/main/kotlin/com/anniversary/app/ui/screens/girl/WishDisplayViewModel.kt:37-42 | the collect loop appends exactly the states of the emitted lists, in order |
| WishDisplay.WishDisplayViewModel.EndStream | app/src/main/kotlin/com/anniversary/app/ui/screens/girl/WishDisplayViewModel.kt:43-47 | a cancellation adds one state that leaves loading and shows the error's text, with the list and everything else kept; a stream still open adds nothing |
| WishDisplay.WishDisplayViewModel.AddReaction | app/src/main/kotlin/com/anniversary/app/ui/screens/girl/WishDisplayViewModel.kt:58-71 | the reaction status replaces the wish's stored status when the write succeeds. A failure is dropped. The UI state never changes, and records stay under their own ids |

## Left out

- Store plumbing (references, `setValue`, `updateChildren`, query building, `await`): each call is a map update guarded by its success flag.
- `push().key` returning null is one of the ways a call fails, covered by its success flag. Which fresh key is chosen, and the random code, are nondeterministic choices. Pairing codes are not checked for uniqueness, as in the code.
- The messaging token fetch inside `createUser` is a `deviceToken` parameter; its failure is folded into the call's success flag.
- Listener registration and removal, `callbackFlow`, coroutine launch and collection: `LoadWishes` receives the sequence of snapshots and how the stream ends.
- Concurrency: two redemptions racing for the same record, or a store change during a call, are not modelled; every operation runs to completion alone.
- `Date()` and `System.currentTimeMillis()` are the `now` parameter; the start date's `LocalDate` zone conversion is taken as already done (`startDate` is an instant).
- Child decoding (`mapNotNull { getValue(...) }`) is taken to succeed for every stored child: a store child that cannot be decoded is not modelled.
- The store's child order (by key, push keys being time-ordered) is modelled as lexicographic order on keys, which the model uses both for the pull query and for the snapshot listener.
- The catch blocks that show an exception's message ("Unknown error occurred") in the view models and turn an exception into failure in `doWork` are left out: every store call in the model reports failure through its result.
- `scheduleNextMonthReminder` is an empty stub and the push notification is only a comment; neither is modelled.
- `AnniversaryMessagingService`, the Compose screens other than the code-entry rules, navigation, `CreateWishViewModel` and `MessageBuilderViewModel` are not part of this model.
- Kotlin's 32-bit `Int` for month numbers is an unbounded `int`; no month arithmetic is done in the core.
- Repository.ApplyUserUpdates: updates are text-valued, so updates of the online flag and the dates (possible with `Map<String, Any>`) are not modelled. A role text other than BOY or GIRL, which the store could not decode, keeps the current role.
- Repository.MarkDelivery, Repository.LinkGirl, Repository.UpdateUser: a write to a key that holds no record creates a default record with the written fields, which is how the store keeps a partial node. Its default dates come from the write's `now`, whereas the app's `Date()` defaults are taken when the node is read back. Such a node also has an empty id, so the every-record-under-its-own-id invariant is kept only for writes to stored keys.
- CodeEntryScreen.IsLetterOrDigit, CodeEntryScreen.ToUpper, CodeEntryScreen.Uppercase and CodeEntryScreen.IsBlank: work over ASCII only; Unicode letters, digits, case mapping and whitespace are not modelled. The at-most-six-symbols invariant of the code field depends on this: a non-ASCII letter such as `ß` passes `isLetterOrDigit` and uppercases to two characters, so six of them would leave twelve characters in the field.
- WishDisplay.WishDisplayViewModel.LoadWishes: states the history of UI states for a finite stream; it does not capture emissions arriving interleaved with other view-model calls.
