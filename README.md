# mariliaflix gallery and login, modelled in Dafny

mariliaflix is a static photo and video gallery. Its page script loads two lists of
media items (`filename`, `timestamp` as `DD/MM/YYYY`, `likes`). It sorts both lists
most recent first, in place. It groups the photos into buckets keyed
"Momento <month name> de <year>". It lays the page out as a "Vídeos" section followed
by one section per bucket. A modal shows one item large, and its like button bumps
that item's counter and refreshes every card badge of the item. A separate login
page accepts one fixed user name and password.

The model has these modules:

- `Text` (`text.dfy`): digit runs, decimal printing (`Show`), and `split`/`join` on one separator.
- `Timestamps` (`timestamps.dfy`): `DD/MM/YYYY` parsing, the integer date key, and the comparator.
- `Sorting` (`sorting.dfy`): a stable insertion sort, most recent first.
  - It is specified as a function (`Sort`) and implemented in place on an array (`SortInPlace`).
  - Both are generic over the key.
- `Grouping` (`grouping.dfy`): the `reduce` into an insertion-ordered map of lists.
  - It is specified as a function (`Grouped`) and implemented as a loop (`GroupInto`).
- `Gallery` (`gallery.dfy`): media items, the month-and-year bucket key, the page sections, and the loader callback `Organize`.
- `Modal` (`modal.dfy`): the cards and the modal as a class, `Viewer`, with open, close and like.
- `Login` (`login.dfy`):
  - ECMAScript `trim`;
  - the credential test;
  - the login form as a class.
- `Wrappers` (`wrappers.dfy`): `Option`.

The "Vídeos" heading is appended even when there are no videos (js/app.js:99-102);
photo headings appear only for existing buckets (js/app.js:136-139). `Gallery.PageVideos`
proves the page always starts with the "Vídeos" section and, with no photos, holds
nothing else.

## Model

| member | source | states |
|---|---|---|
| Text.ParseNat | js/app.js:43 | `Number` on a digit run, read in base ten from the left; its properties are in `Text.ParseZero`, `Text.ParseShow`, `Text.ParseLeadingZeros` and `Timestamps.ParseFields` |
| Text.ParseZero | js/app.js:43 | a digit run reads as zero exactly when all its digits are `0` |
| Text.Show | js/app.js:77 | the decimal text of a number is a digit run with no leading zero, and it is "0" exactly for zero |
| Text.ParseShow | js/app.js:43 | `Number` of the printed year gives the year back |
| Text.ParseLeadingZero | js/app.js:43 | a leading zero does not change a field's value, so "03" reads as 3 |
| Text.ParseLeadingZeros | js/app.js:43 | any number of leading zeros leaves a field's value unchanged |
| Text.Split | js/app.js:43 | `split` gives at least one field, and no field contains the separator |
| Text.JoinSplit | js/app.js:43 | joining the fields of a split with the separator rebuilds the text |
| Text.SplitJoin | js/app.js:43 | splitting a join of separator-free fields gives the fields back |
| Text.SplitField | js/app.js:43 | a separator-free prefix extends the first field and leaves the later fields as they were |
| Text.CancelWord | js/app.js:77 | "<name> de <year>" determines the name and the year when the name has no space |
| Timestamps.Parse | js/app.js:43-44 | a well-formed timestamp gives a valid date: month in 1..12, day below 100 |
| Timestamps.ParseFields | js/app.js:43-44 | three digit runs joined by `/` parse to their numeric values as day, month and year |
| Timestamps.Key | js/app.js:45-46 | `y*10000 + m*100 + d` of a date; its order and injectivity on valid dates are in `Timestamps.KeyOrder` |
| Timestamps.DateKey | js/app.js:43-46 | the key of a parsed timestamp, as `dateA` and `dateB` are computed; its properties are in `Timestamps.CompareOrder` |
| Timestamps.Compare | js/app.js:42-48 | the comparator `dateB - dateA`; its sign and antisymmetry are in `Timestamps.CompareOrder` |
| Timestamps.KeyOrder | js/app.js:45-46 | on valid dates, `y*10000 + m*100 + d` is smaller exactly when the date is earlier in (year, month, day) order, and equal exactly for the same date |
| Timestamps.CompareOrder | js/app.js:42-48 | the comparator is negative exactly when `a` is more recent, zero exactly on the same date, and antisymmetric |
| Timestamps.ParseFormat | js/app.js:43-44 | a formatted date is well formed and parses back to itself, with leading zeros dropped |
| Sorting.Insert | js/app.js:42-57 | inserting adds exactly the one element: the multiset grows by it |
| Sorting.InsertAt | js/app.js:42-57 | the element lands right behind the last element whose key is at least its own, and every element after it has a strictly smaller key; in a list sorted most recent first that is after every larger or equal key and before the strictly smaller ones |
| Sorting.Sort | js/app.js:42-57 | the sorted list is a permutation of the input |
| Sorting.InsertSorted | js/app.js:42-57 | inserting into a list sorted most recent first keeps it sorted |
| Sorting.InsertMembers | js/app.js:42-57 | insertion introduces no element other than the inserted one |
| Sorting.InsertWithKey | js/app.js:42-57 | inserting appends the element to the items of its key and changes no other key's items |
| Sorting.SortIsSorted | js/app.js:42-57 | the result has non-increasing date keys |
| Sorting.SortIsStable | js/app.js:42-57 | for every key, the items with that key appear in input order, as the stable `Array.prototype.sort` keeps them |
| Sorting.SortedEqual | js/app.js:42-57 | two sorted lists with the same items per key in the same order are equal |
| Sorting.SortUnique | js/app.js:42-57 | any sorted list that keeps each key's items in input order is the sort's result |
| Sorting.SortSorted | js/app.js:42-57 | an already sorted list is left as it is |
| Sorting.SortIdempotent | js/app.js:42-57 | sorting twice gives the same as sorting once |
| Sorting.SortInPlace | js/app.js:42-57 | the in-place insertion sort leaves the array holding the stable sort of its old contents |
| Sorting.InsertLast | js/app.js:42-57 | one pass places the next element into the sorted prefix and leaves the rest of the array alone |
| Sorting.ShiftGap | js/app.js:42-57 | the shifting loop moves the smaller-key tail of the sorted prefix right by one, leaves the part with larger or equal keys in place, and drops the element into the gap between them |
| Sorting.StableThree | js/app.js:42-57 | of three items where the first and last share a key below the middle one's, the middle one comes first and the other two keep their order |
| Sorting.WithKeyAbove | js/app.js:42-57 | in a sorted list whose last key exceeds `k`, no item has key `k` |
| Grouping.Add | js/app.js:78-79 | one step of the `reduce`: create the key's list if missing, then push the element; its effect is in `Grouping.AddStep` |
| Grouping.AddStep | js/app.js:78-79 | a new key is appended to the key list and an existing one keeps its place; the key's list ends with the element after what it held; every other key's list is unchanged |
| Grouping.Grouped | js/app.js:60-81 | the `reduce` from `{}` over the whole list; its buckets, key order and concatenation are in `Grouping.GroupedBuckets`, `Grouping.GroupedKeyOrder` and `Grouping.ContiguousConcat`, and the loop `Grouping.GroupInto` equals it |
| Grouping.Labels | js/app.js:61-77 | the labels of a list are the label of each element, in order |
| Grouping.WithLabelMembers | js/app.js:78-79 | the photos collected under a key are photos of the input with that key |
| Grouping.GroupedBuckets | js/app.js:60-81 | the keys are distinct; a key is in the key list iff it has a bucket iff some element has it; each bucket is exactly the elements with its key, in input order |
| Grouping.GroupedLabels | js/app.js:77-79 | every element of a bucket has that bucket's key |
| Grouping.GroupedKeysPresent | js/app.js:78 | every listed key has a bucket |
| Grouping.GroupedKeyOrder | js/app.js:78-79 | keys are listed in the order of their first occurrence in the input |
| Grouping.WithLabelAbsent | js/app.js:78-79 | a key no element has collects nothing |
| Grouping.FirstIndex | js/app.js:78 | the first position of a key holds it and no earlier position does |
| Grouping.ContiguousConcat | js/app.js:60-89 | when equal keys are adjacent, reading the buckets in key order gives back the input list |
| Grouping.GroupedThree | js/app.js:60-81 | two elements sharing a key followed by one with another key give two buckets, in that order |
| Grouping.GroupInto | js/app.js:60-81 | the grouping loop produces exactly the key list and map of the grouping function, so every element lands in exactly one bucket |
| Gallery.MediaItem.constructor | js/app.js:37 | a loaded item has the given file name, timestamp and like count |
| Gallery.SortByDate | js/app.js:42-57 | `videos.sort` and `fotos.sort`: the array ends up holding the stable date-descending sort of its old contents |
| Gallery.MonthName | js/app.js:62-76 | `nomesMes[mes - 1]` over the twelve names of `Gallery.MonthNames`, "undefined" outside 1..12; see `Gallery.MonthNameUndefined` and `Gallery.MonthNamesDistinct` |
| Gallery.MonthNameUndefined | js/app.js:76-77 | only a month outside 1..12 prints as "undefined" |
| Gallery.Label | js/app.js:61-77 | the key `Momento ${nomeMes} de ${ano}` of a timestamp; `Gallery.LabelInjective` shows it tells month-and-year apart, `Gallery.ExampleLabels` gives two values |
| Gallery.MonthNamesDistinct | js/app.js:62-76 | the twelve month names are pairwise different and contain no space |
| Gallery.LabelInjective | js/app.js:61-77 | two well-formed timestamps get the same "Momento" key exactly when they share month and year |
| Gallery.SortedIsContiguous | js/app.js:51-77 | in a photo list sorted most recent first, photos of the same month and year are adjacent |
| Gallery.GroupByMonthYear | js/app.js:60-81 | the `reduce` yields the "Momento" buckets of the photos, keys in first-occurrence order |
| Gallery.Page | js/app.js:86-144 | the page's sections: "Vídeos" with the sorted videos, then one section per bucket of the sorted photos; its properties are in `Gallery.PageVideos`, `Gallery.PageMonths` and `Gallery.PagePhotos` |
| Gallery.PhotoSections | js/app.js:136-144 | one section per key, in key order, each titled by its key and holding its bucket |
| Gallery.SectionItemsConcat | js/app.js:136-144 | reading the photo sections' items one after another gives the buckets' concatenation |
| Gallery.PageVideos | js/app.js:86-102 | the page always starts with the "Vídeos" section holding the sorted videos; with no photos it has no other section |
| Gallery.PageMonths | js/app.js:136-144 | the photo section titles are distinct, and every photo in a section has that section's title as its key |
| Gallery.PagePhotos | js/app.js:86-89 | for well-formed photos, the photo sections read in order give exactly the sorted photo list |
| Gallery.Organize | js/app.js:41-89 | both arrays end sorted in place, and the sections produced are the page of the original lists |
| Gallery.LayOut | js/app.js:86-89 | the sections are the first section followed by one section per key, in key order |
| Gallery.MarchBeforeJanuary | js/app.js:42-81 | photos of 15/03/2024, 02/03/2024 and 20/01/2024 stay in that order and form a March bucket of two followed by a January bucket |
| Gallery.ExampleDates | js/app.js:43-44 | the three example timestamps parse to their dates |
| Gallery.ExampleNumbers | js/app.js:43 | the example fields read as 2024, 15, 20, 1, 2 and 3 |
| Gallery.ExampleLabels | js/app.js:76-77 | months 3 and 1 of 2024 are labelled "Momento Março de 2024" and "Momento Janeiro de 2024" |
| Gallery.SameDateExample | js/app.js:51-57 | photos dated 02/03/2024, 15/03/2024 and 02/03/2024 sort to the middle one first, the two of the same date keeping their input order |
| Modal.MediaPath | js/app.js:112-149 | the media `src`, `videos/<f>` or `img/<f>`; `Modal.MediaPathInjective` shows it determines kind and file name |
| Modal.CardOf | js/app.js:107-172 | the card rendered for an item: its kind, its `src` and the badge `${likes}`; see `Modal.BadgeCount` and `Modal.CardMatches` |
| Modal.BadgeCount | js/app.js:127 | a card's badge is a digit run that reads back as the item's like count |
| Modal.Matches | js/app.js:231-243 | the like handler's test on a card, element kind and `src`; characterised in `Modal.CardMatches` |
| Modal.TitleOf | js/app.js:191-207 | the modal heading, "Vídeo: <timestamp>" or the bare timestamp; `Modal.Viewer.OpenVideo` and `Modal.Viewer.OpenPhoto` set it and `Viewer.Valid` keeps it while the modal is open |
| Modal.MediaPathInjective | js/app.js:231-243 | `img/<f>` and `videos/<f>` paths determine the kind and the file name |
| Modal.CardMatches | js/app.js:231-243 | the like handler's test picks a card exactly when the card's item has the shown kind and file name |
| Modal.Tagged | js/app.js:107-175 | each item of a list becomes a card entry of the given kind, in order |
| Modal.PageCards | js/app.js:99-176 | the page's cards are the sorted videos, then the sorted photos |
| Modal.Viewer.constructor | js/app.js:99-176 | rendering gives one card per item, in document order, each badge showing the item's count, and the modal closed |
| Modal.Viewer.ShownAgrees | js/app.js:192-236 | while badges are in step, the modal's count equals the shown item's card badge |
| Modal.Viewer.OpenVideo | js/app.js:180-196 | the modal shows an autoplaying player of `videos/<f>` from the start, titled "Vídeo: <timestamp>", with the item's count; the video becomes current and the modal active |
| Modal.Viewer.OpenPhoto | js/app.js:199-212 | the modal shows the image `img/<f>` with alt "Foto <f>", titled by the timestamp, with the item's count; the photo becomes current and the modal active |
| Modal.Viewer.Close | js/app.js:215-223 | a video in the modal is paused at position 0; the modal is inactive and no item is current; title and count text are unchanged |
| Modal.Viewer.RefreshBadges | js/app.js:231-243 | the `forEach` over the cards gives the new badge text to exactly the cards holding the medium of the given kind and file name; every other card is unchanged |
| Modal.Viewer.Like | js/app.js:226-246 | with no current item nothing changes; otherwise the item's likes rise by exactly one, the modal shows the new count, exactly the cards with the item's kind and path show it and no other card changes, and in-step badges stay in step |
| Login.Trim | js/login.js:20 | `trim()` as the leading then the trailing white space removed; its properties are in `Login.TrimSplits`, `Login.TrimEnclosed` and `Login.TrimIdempotent` |
| Login.TrimStart | js/login.js:20 | what is dropped from the front is all white space, what remains does not start with white space |
| Login.TrimEnd | js/login.js:20 | what is dropped from the end is all white space, what remains does not end with white space |
| Login.TrimStartPrefix | js/login.js:20 | leading white space before a text that does not start with white space is removed exactly |
| Login.TrimEndSuffix | js/login.js:20 | trailing white space after a text that does not end with white space is removed exactly |
| Login.TrimEnclosed | js/login.js:20 | trimming white space around a text with non-space ends gives that text |
| Login.TrimSplits | js/login.js:20 | every text is its trimmed form with only white space on either side |
| Login.TrimIdempotent | js/login.js:20 | trimming twice gives the same as trimming once |
| Login.Accepts | js/login.js:20-24 | the submit handler's test; characterised in `Login.AcceptsIff` |
| Login.AcceptsIff | js/login.js:20-24 | a login is accepted iff the password is exactly "Marilia" and the user name is "renato" surrounded only by white space |
| Login.UserPadded | js/login.js:20-24 | white space around the user name does not prevent acceptance |
| Login.PasswordUntrimmed | js/login.js:21-24 | a password starting or ending with white space is refused |
| Login.PaddedExample | js/login.js:20-24 | " renato" followed by a tab, with "Marilia", is accepted |
| Login.UserCaseExample | js/login.js:24 | "Renato" is refused: the user name comparison is case-sensitive |
| Login.PasswordCaseExample | js/login.js:24 | "marilia" is refused: the password comparison is case-sensitive |
| Login.LoginForm.constructor | js/login.js:12-15 | the form holds what the user typed, with no error text and no navigation |
| Login.LoginForm.Submit | js/login.js:17-33 | on acceptance the browser is sent to "home.html" and nothing else changes; on refusal the error text becomes "Usuário ou senha incorretos.", the password is cleared, the user name and location are kept, and the form as left is refused again |

## Left out

- Loading the two JSON files with `fetch`/`Promise.all`, the `res.ok` errors and the error paragraph (js/app.js:25-36, 91-96) are left out. They are network I/O. The model starts from the two parsed lists.
- All console logging, including the image `onerror` handler (js/app.js:38-39, 83, 158-160), is left out. It has no effect on the page's state.
- DOM construction is left out, because it is presentation. This covers `criaElemento`, `innerHTML` templates, CSS classes, the `muted`/`preload`/`autoplay` attributes and `stopPropagation`. A card is modelled as its kind, its media `src` and its badge text. The photo overlay with the timestamp is not modelled.
- The backdrop click test `e.target === modal` (js/app.js:250-252) is left out. It is event routing, and the model has only the `Close` it leads to.
- Real media playback is left out. The player is two abstract fields, `paused` and `position`. Opening a video starts it at position 0 and nothing advances the position.
- `focus()` on the password field (js/login.js:32) is left out, because it is a browser side effect. The navigation of js/login.js:26 is modelled only as the `location` field that receives "home.html".
- Timestamps.Parse: only digit-run fields are read as JavaScript reads them. Every other field, and a missing one, is read as 0. `Number` reads more text as numbers than digit runs: surrounding white space (`" 2024"` is 2024), a sign (`"+3"`), a fraction (`"1.5"`), an exponent (`"1e1"` is 10), a radix prefix (`"0x10"` is 16), and the empty text (0). On such timestamps the model differs from the page: "15/03/ 2024" is March 2024 in JavaScript, with key 20240315, but year 0 with key 315 here. So `Gallery.SortByDate`, `Gallery.Organize` and `Gallery.Label` describe the page's order and labels only for timestamps whose three fields are digit runs. Fields that `Number` turns into NaN, and a missing field (`undefined`), make the comparator return NaN, and the platform's order for that is unspecified. The order and bucket properties are proved for well-formed timestamps only.
- Login.LoginForm.constructor: the error line starts empty. This is assumed of the initial markup of the login page, and login.html is not part of this model. js/login.js:12-15 only looks the elements up.
- Gallery.MonthName: a month outside 1..12 gives the text "undefined", as the template literal prints it. Out-of-range months are otherwise outside the proved properties.
- Sorting.SortInPlace is an insertion sort. The platform may use another stable algorithm. The model proves the result equals the unique stable descending order, which every stable sort produces, but not the platform's intermediate states.
- Gallery.Organize requires the two arrays to be distinct objects. The source builds them from two separate JSON responses.
- Modal.Viewer.OpenVideo and Modal.Viewer.OpenPhoto require the opened item to be one of the page's items. The source calls them only from the card click listeners.
- Modal.Viewer.Like: badges are proved to stay in step with their items only when file names pick out single items (`UniqueFiles`). With two items of one kind sharing a file name, the handler also rewrites the other item's badge, and the model states that card-by-card update without claiming the badges stay in step.
- Timestamps.WellFormed: the year field may have any number of digits, and the key and the year text are computed on unbounded integers. JavaScript computes `y*10000 + m*100 + d` in double precision, so from year 900719925474 on distinct dates can share a key, compare as equal and keep input order. `Number` also rounds years above 2^53, and `${ano}` prints years from 10^21 on in exponent form. The model's ordering, grouping and label properties hold for the exact integers, which agree with JavaScript for every year below 900719925474.
- Modal.Viewer.constructor: the modal's title, count text and media container start empty. This is assumed of the initial markup of the page, and home.html is not part of this model. js/app.js does not set them before the first open, and `Viewer.Valid` does not read the title or count text while the modal is closed.
- Likes counters are unbounded naturals. JavaScript numbers lose precision above 2^53, which is not modelled.
