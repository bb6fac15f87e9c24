# tiger-anki in Dafny

tiger-anki builds an Anki flash-card deck of Princeton undergraduates: each
card links a student's full name to their Tigerbook portrait. It also holds
a scraper for the Computer Science department's people directory. This
project models the deterministic logic at the centre of both programs, and
proves what that logic promises.

- `wrappers.dfy`, module `Wrappers`: `Option`, which stands for Python's `None` or a value.
- `text.dfy`, module `Text`: the Python string operations the programs use, restricted to ASCII.
  - `str.lower` and `str.strip`;
  - `str.strip(')')`;
  - the `in` substring test;
  - `str.split('@')`;
  - the regular-expression class `\W`.
- `cs_people.dfy`, module `CsPeople` (cs_people.py):
  - `filter_pictureless`: records with a real photo, as a list or as a dictionary keyed by `net_id`;
  - the category/subtype validation of `loadfeed`;
  - the NetID and e-mail derived from an address item;
  - `loadfeeds`: the merge of every category's feed into one roster keyed by `net_id`. The merge is an imperative method over an abstract `loadfeed`, proved against the function `MergeFeeds`.
- `tigerbook.dfy`, module `Tigerbook` (main.py):
  - `tigerbook_imgpath`;
  - `tigerbook_lookup`: a method of the class `AssetStore`, whose field `files` is the image directory. It saves a portrait at most once per path.
  - `create_deck`: a method with a loop, proved against the functions `NotesFor`, `SaveAll` and `MediaList`. Each of those has its own lemmas.

The network is abstract. The remote sources are function parameters of the model:

- `Services.api`: the Tigerbook API answer, ok or not plus a JSON object, for a NetID.
- `Services.image`: the image answer, ok or not plus bytes, for a URL.
- `Services.defaultImageUrl`: the default image URL of a NetID.
- the `loadfeed` parameter: the directory feed of a category, which is `None` when the request failed.

How the model reads some behaviour of the source:

- A dictionary passed to `filter_pictureless` is modelled by its values, in iteration order. The function discards the keys at cs_people.py:16.
- These exceptions of the modelled code are explicit results of the model (the others are listed under "Left out"):
  - the KeyError of the dictionary comprehension: `NetIdKeyError`;
  - the IndexError of an address without `@`: `None` from `ParseAddress`;
  - the TypeError of iterating a failed feed in `loadfeeds`: `FeedFailed`;
  - the KeyError of a record without `net_id` in `loadfeeds`: `NetIdMissing`;
  - the KeyError of a student's data without `full_name` or `net_id` in `create_deck`: `MissingField` / `DeckKeyError`.
- The domain of an e-mail address is stripped of whitespace first and of `)` after. So "ab@cs.edu )" gives the domain "cs.edu ": the whitespace inside the `)` stays. The lemma `DomainKeepsSpaceBeforeParen` states this.
- Portraits are saved under the student's `.png` path (main.py:46-48). The card templates refer to `{{Netid}}.jpeg` (main.py:65, 70). The media list also names the `.png` paths (main.py:98-99). The model states each of these as the code has it.
- Nothing in either program caches records or ranks sources against each other, and the model adds no such logic.

## Model

| member | source | states |
|---|---|---|
| Text.LowerChar | cs_people.py:35 | an ASCII capital becomes its small letter (code + 32); every other character is unchanged; the result is never a capital |
| Text.Lower | cs_people.py:35 | `str.lower`: same length, lower-cased character by character |
| Text.LowerIdempotent | main.py:24 | a lower-cased string has no capital letter, and lowering it again changes nothing |
| Text.LeadingCount | cs_people.py:35 | the number of leading characters `strip` removes: every one of them is in the class, and the next character is not |
| Text.TrailingCount | cs_people.py:35 | the number of trailing characters `strip` removes: every one of them is in the class, and the character before them is not |
| Text.TrimLeft | cs_people.py:35 | the result is a suffix of the input; everything dropped is in the stripped class; the result does not start with one |
| Text.TrimRight | cs_people.py:35 | the result is a prefix of the input; everything dropped is in the class; the result does not end with one |
| Text.Trim | cs_people.py:98 | `str.strip(chars)`: no longer than the input; neither end of the result is in the stripped class |
| Text.TrimSlice | cs_people.py:35 | what strip keeps is one contiguous slice of the input, and every character cut from either side is in the class |
| Text.TrimKeepsSlice | cs_people.py:35 | the part `strip` keeps is the slice of the input that starts after the leading characters it drops |
| Text.TrimKeepsOut | cs_people.py:98 | stripping never introduces a character, so a domain cut from the text after the first `@` holds no `@` |
| Text.TrimDropsRight | cs_people.py:35 | every character after the kept part is in the stripped class |
| Text.Strip | cs_people.py:35 | `str.strip()`: `Trim` with ASCII whitespace; its meaning is stated by `Trim`, `TrimSlice` and `TrimKeepsSlice` |
| Text.Contains | cs_people.py:24 | Python's `sub in s`, defined by recursion on the start position; `ContainsIff` ties it to an occurrence at some index |
| Text.ContainsIff | cs_people.py:24 | Python's `sub in s` holds exactly when `sub` occurs at some position of `s` |
| Text.LowerKeepsBraces | main.py:23-24 | lower-casing neither creates nor removes an occurrence of `{{` |
| Text.KeepWordChars | cs_people.py:97 | `re.sub(r'\W+', '', s)`: a character is in the result iff it is in the input and is a word character; never longer; `KeepWordCharsSingle` and `KeepWordCharsAppend` fix order and repeats |
| Text.KeepWordCharsSingle | cs_people.py:97 | one character gives itself if it is a word character and nothing otherwise |
| Text.KeepWordCharsAppend | cs_people.py:97 | the result for `a + b` is the result for `a` followed by the result for `b`: word characters keep their order and repeats |
| Text.KeepWordCharsIdempotent | cs_people.py:97 | removing non-word characters twice is removing them once |
| Text.Split | cs_people.py:97-98 | `str.split(sep)`: at least one piece, and no piece contains the separator |
| Text.JoinSplit | cs_people.py:97-98 | joining the pieces with the separator gives back the original text |
| Text.SplitHasSecondPiece | cs_people.py:98 | there is a piece at index 1 exactly when the separator occurs |
| CsPeople.KeepPicturedExactly | cs_people.py:21-25 | a record is kept iff it has `photo_link` and that link does not contain "default.png"; a kept record is kept as many times as it occurs |
| CsPeople.HasPhoto | cs_people.py:24 | the keep condition: a `photo_link` field whose value does not contain "default.png"; used by `KeepPicturedExactly` |
| CsPeople.KeepPictured | cs_people.py:21-25 | the filtered list is never longer than the input |
| CsPeople.KeepPicturedIsSubsequence | cs_people.py:21-25 | the filtered list is a subsequence of the input, in input order |
| CsPeople.KeepPicturedIdempotent | cs_people.py:21-25 | filtering the filtered list again changes nothing |
| CsPeople.KeepPicturedAppend | cs_people.py:21-25 | filtering a concatenation is concatenating the filtered parts |
| CsPeople.KeepPicturedSplitAt | cs_people.py:21-25 | around a pictured record, the output is what is kept before it, then the record, then what is kept after it |
| CsPeople.KeyByNetIdSelfKeyed | cs_people.py:28 | every key maps to an input record whose `net_id` is that key, and every input record's `net_id` is a key |
| CsPeople.KeyByNetIdLastWins | cs_people.py:28 | a record that no later record shares its `net_id` with is the value under that `net_id` |
| CsPeople.KeyByNetIdAppend | cs_people.py:28 | keying a concatenation is the right-biased union of keying each part |
| CsPeople.AllKeyedAppend | cs_people.py:28 | a concatenation of records has every `net_id` exactly when both parts do |
| CsPeople.KeyByNetIdSnoc | cs_people.py:28 | keying one more record stores it under its `net_id` over the earlier records |
| CsPeople.KeyByNetIdSole | cs_people.py:28 | a record followed only by records with other NetIDs is the value under its NetID |
| CsPeople.KeyByNetId | cs_people.py:28 | the dictionary comprehension, defined as the updates in record order; its meaning is stated by `KeyByNetIdSelfKeyed`, `KeyByNetIdLastWins` and `KeyByNetIdAppend` |
| CsPeople.DictMode | cs_people.py:13-19 | the result is a dictionary when `as_dict` says so, or, without it, when the input is a dictionary; stated by `ShapeDefaultsToInput` and `FlagOverridesShape` |
| CsPeople.FilterPictureless | cs_people.py:11-30 | `filter_pictureless`: the list comprehension, then the list or the dictionary comprehension; its meaning is stated by the lemmas `ShapeDefaultsToInput` to `DictModeLaterWins` |
| CsPeople.ShapeDefaultsToInput | cs_people.py:13-19 | without `as_dict`, a dictionary input gives a dictionary and a list input gives a list |
| CsPeople.FlagOverridesShape | cs_people.py:13-19 | an explicit `as_dict` decides the shape of the result, whatever the input's shape |
| CsPeople.ListModeKeepsPicturedInOrder | cs_people.py:21-30 | in list mode the result is an in-order subsequence of the input; a record is in it iff it is in the input and has a real photo; multiplicities are kept |
| CsPeople.FilterIdempotent | cs_people.py:21-30 | calling `filter_pictureless` on its own list output returns that output unchanged |
| CsPeople.DictModeKeyedByNetId | cs_people.py:27-28 | in dictionary mode the KeyError happens iff some pictured record lacks `net_id`; otherwise every key is its record's `net_id`, and every record is pictured and comes from the input |
| CsPeople.DictModeLaterWins | cs_people.py:27-28 | if two pictured records share a `net_id`, the later one is stored: a record that no later pictured record shares its NetID with is the one under that NetID |
| CsPeople.ValidateFeed | cs_people.py:35-41 | an accepted request is for the lower-cased, stripped category, and that category is one of CATEGORIES |
| CsPeople.Normalize | cs_people.py:35 | `lower().strip()`; stated by `NormalizeFixesNormal` and `NormalizeIdempotent` |
| CsPeople.LoadFeed | cs_people.py:32-44 | `loadfeed` up to its request: `None` for rejected parameters, otherwise the feed of the normalised category; stated by `RejectedFeedMakesNoRequest` and `LoadFeedOfValidCategory` |
| CsPeople.ValidateFeedAccepts | cs_people.py:35-41 | validation passes iff the normalised category is in CATEGORIES and, for faculty with a subtype given, the normalised subtype is in SUBTYPES |
| CsPeople.RejectedFeedMakesNoRequest | cs_people.py:35-44 | rejected parameters give `None` whatever the directory would answer: no request is made |
| CsPeople.LoadFeedOfValidCategory | cs_people.py:35-44 | a category that is already in normal form and valid is requested as given |
| CsPeople.SubtypeOnlyCheckedForFaculty | cs_people.py:38-41 | for a category other than faculty, the subtype has no effect on validation |
| CsPeople.NormalizeFixesNormal | cs_people.py:35 | a string with no capitals and no surrounding whitespace is unchanged by `lower().strip()` |
| CsPeople.NormalizeIdempotent | cs_people.py:35 | applying `lower().strip()` twice is applying it once |
| CsPeople.StripKeepsLowerCase | cs_people.py:35 | stripping a string without capitals leaves a string without capitals |
| CsPeople.ValidateFeedNormalForm | cs_people.py:35-41 | validation ignores the case and surrounding whitespace of both the category and the subtype |
| CsPeople.CategoriesPassValidation | cs_people.py:115-118 | every built-in category passes validation unchanged, so `loadfeeds` requests each one |
| CsPeople.CategoryIsSmallLetters | cs_people.py:8 | every built-in category is written in small letters only |
| CsPeople.ParseAddress | cs_people.py:97-99 | the address parses iff the text contains `@`; the NetID has only word characters; the e-mail is NetID + "@" + domain; the domain holds no `@` and does not start or end with `)` |
| CsPeople.SplitAfterFreePrefix | cs_people.py:97-98 | splitting `local@rest`, where `local` has no `@`, gives `local` and then the pieces of `rest` |
| CsPeople.AddressParts | cs_people.py:97-99 | for `local@rest` with no `@` in `local`, the NetID is the word characters of `local` and the domain comes from `rest` up to its first `@` |
| CsPeople.SplitWithoutSeparator | cs_people.py:98 | text without `@` splits into itself alone |
| CsPeople.DomainKeepsSpaceBeforeParen | cs_people.py:98 | `local@d )` gives the domain `d ` followed by a space: whitespace inside the closing parenthesis stays |
| CsPeople.StripsToSpace | cs_people.py:98 | stripping whitespace and then `)` from `d )` leaves `d ` |
| CsPeople.ApplyAddress | cs_people.py:96-100 | the record gains `email` and `net_id` iff the text has `@`; `net_id` is the parsed NetID (word characters only) and `email` is `net_id` + "@" + the parsed domain; no other field changes |
| CsPeople.MergeFeeds | cs_people.py:115-121 | the fold of the categories' keyed feeds into the roster, stopping at the first failure; its meaning is stated by the lemmas `MergeFeedsSucceeds` to `MergeFeedsUntouched` |
| CsPeople.MergeFeedsSucceeds | cs_people.py:115-121 | the merge gives a roster iff every category's feed arrived and each of its records has a `net_id`; a failure names a category of the list whose feed failed for the reason given |
| CsPeople.MergeFeedsFirstFailure | cs_people.py:117-120 | a failure names the first failing category: its feed failed as the error says, and every earlier category's feed arrived with all records keyed |
| CsPeople.KeyByNetIdKeys | cs_people.py:119-120 | a NetID is a key of a feed's keyed records iff some record of the feed has it |
| CsPeople.MergeFeedsKeys | cs_people.py:115-121 | the roster's NetIDs are exactly the union of the NetIDs of all category feeds |
| CsPeople.MergeFeedsLaterWins | cs_people.py:115-121 | on a collision the later category wins: the roster's record for a NetID comes from the last category that holds it |
| CsPeople.MergeFeedsUntouched | cs_people.py:119-120 | a NetID that no remaining category holds keeps the record it already had |
| CsPeople.AddFeed | cs_people.py:119-120 | storing one feed's records by `net_id` gives the roster so far updated with that feed's keyed records, later records winning; it fails iff some record has no `net_id` |
| CsPeople.MergeCategories | cs_people.py:116-121 | the nested loop over categories and records computes the merge `MergeFeeds`, including its errors |
| CsPeople.LoadFeeds | cs_people.py:115-121 | `loadfeeds` is the merge over CATEGORIES, in that order |
| Tigerbook.ImgPathOfRealNetid | main.py:22-30 | a non-empty NetID without `{{` gives the image directory + the lower-cased NetID + "." + the extension |
| Tigerbook.ImgPathOfTemplate | main.py:23-26 | a missing or empty NetID, or one containing `{{`, gives the name `{{Netid}}` |
| Tigerbook.TemplateImagePath | main.py:65 | the card templates' image source is `{{Netid}}.jpeg` |
| Tigerbook.ImgPathExtension | main.py:27-30 | the path ends in `.jpeg` iff `jpeg` is set, and in `.png` iff it is not |
| Tigerbook.ImgPathIgnoresCase | main.py:23-24 | for every NetID, the path is the same as for its lower-cased form |
| Tigerbook.ImgPathIsLowerCase | main.py:22-30 | the path of a real NetID contains no capital letter |
| Tigerbook.Extension | main.py:27-29 | `jpeg` when the flag is set and `png` otherwise |
| Tigerbook.IsRealNetid | main.py:23 | the condition of line 23: the NetID is given, non-empty and contains no `{{` |
| Tigerbook.ImgPath | main.py:22-30 | `tigerbook_imgpath`; its meaning is stated by `ImgPathOfRealNetid`, `ImgPathOfTemplate`, `TemplateImagePath`, `ImgPathExtension`, `ImgPathIgnoresCase` and `ImgPathIsLowerCase` |
| Tigerbook.SaveOnce | main.py:46-48 | the image is stored only if it was fetched and no file exists; an existing file is never replaced; the only new key is the path; the new file holds the fetched bytes |
| Tigerbook.SaveOnceIsWriteOnce | main.py:46-48 | once a file exists at the path, a later save there changes nothing |
| Tigerbook.Resolved | main.py:36-50 | what `tigerbook_lookup` returns: the API data when the answer is ok, `None` otherwise; `AssetStore.Lookup` is proved to return it |
| Tigerbook.ImageUrl | main.py:41-43 | `data.get("photo_link", default)`: the data's `photo_link` if present, else the NetID's default image URL |
| Tigerbook.LookupEffect | main.py:46-48 | the image directory after one lookup; `AssetStore.Lookup` is proved to leave exactly it |
| Tigerbook.AssetStore.Lookup | main.py:32-50 | `None`, with no file written, when the API answer is not ok; otherwise the API data whatever happens to the image. The image is fetched from `photo_link` or the default URL and saved write-once under the `.png` path |
| Tigerbook.ResolvedIndices | main.py:84-87 | the positions of exactly the students whose lookup is not `None`, strictly increasing |
| Tigerbook.NotesFor | main.py:84-95 | the notes the loop adds, or its KeyError; its meaning is stated by `NotesForResolvedStudents`, `NotesForMissingField` and `NotesForErrorSticks` |
| Tigerbook.NotesForResolvedStudents | main.py:84-95 | there is one note per resolved student, in input order, made of its `full_name` and `net_id`; all others are skipped |
| Tigerbook.NotesForMissingField | main.py:89-93 | a KeyError names a resolved student whose data lacks the field, `full_name` being read before `net_id`; every earlier student's note was built |
| Tigerbook.NotesForErrorSticks | main.py:84-95 | once a prefix of the students stops with a KeyError, the whole list stops with the same error |
| Tigerbook.SaveAll | main.py:84-85 | the image directory after looking up the students in order; stated by `SaveAllKeepsExisting`, `SaveAllWritesOnlyStudentImages` and `SaveAllStoresFetchedImages` |
| Tigerbook.SaveAllKeepsExisting | main.py:84-85 | a file already in the image directory keeps its bytes while the deck is built |
| Tigerbook.SaveAllWritesOnlyStudentImages | main.py:84-85 | every new file is at the `.png` path of some resolved student and holds that student's fetched portrait |
| Tigerbook.SaveAllStoresFetchedImages | main.py:84-85 | a resolved student whose portrait was fetched has a file at its `.png` path afterwards |
| Tigerbook.ImagePaths | main.py:98-99 | one image path per student, in order |
| Tigerbook.MediaList | main.py:98-99 | the media list holds the `.png` path of every input student, in order and including students who did not resolve, then `al38.jpeg`; its length is the number of students + 1 |
| Tigerbook.CreateDeck | main.py:76-99 | the deck holds the notes of `NotesFor` and the media list, and the directory is `SaveAll` over all students; on a KeyError the deck is that error, and only the students up to and including the failing one have been looked up |

## Left out

- The HTML request and parsing in `loadfeed` (cs_people.py:44-93, 111): network I/O and BeautifulSoup. The feed is the parameter `loadfeed`/`scrape`. Only the address step (`ApplyAddress`) of the per-record loop is modelled.
- `requests.get`, `urljoin`, `r.json()` and `r.content` (cs_people.py:44-46, main.py:33-44): network I/O and URL resolution. The answers and the default image URL are abstract functions and are assumed deterministic. A JSON decoding error is not modelled.
- `get_wsse_headers` (main.py:106-124): it depends on a random nonce, the clock, SHA-256 and base64. The headers do not affect any modelled result.
- genanki's `Model`, `Deck`, `Note`, `Package` and `write_to_file` (main.py:52-82, 97, 103): a foreign library and its file format. The deck is modelled as its ordered list of notes plus the media list. The card templates appear only through their image path (`TemplateImagePath`).
- The random deck ID (main.py:77), the `print` (main.py:100), the credentials import (main.py:14-15) and the empty `__main__` block (main.py:126-127): randomness, output and configuration.
- Failures of the file system (`os.path.exists`, `open(...).write`): the image directory is a map, so a write always succeeds.
- Text.Lower: ASCII only. Python's Unicode case mapping is not modelled.
- Text.Strip: ASCII whitespace only. Unicode whitespace is not modelled.
- Text.KeepWordChars: `\w` is `[A-Za-z0-9_]`. Unicode letters and digits, which Python's `re` also counts as word characters, are not modelled.
- CsPeople.FilterPictureless: `as_dict` is `None`, `True` or `False`. Other truthy or falsy values are not modelled, and the input is a list or a dictionary.
- CsPeople.ParseAddress: it does not promise that the domain has no surrounding whitespace. The code strips whitespace before `)`, so whitespace inside a closing `)` stays, and the contract states what the code does (see `DomainKeepsSpaceBeforeParen`).
- The errors of `loadfeed`'s own parsing are not modelled: an AttributeError when a tag is missing (cs_people.py:58-77), the IndexError of line 98 escaping `loadfeed`, and exceptions raised by `requests.get`. The `loadfeed` parameter has no exception case.
- Insertion order of Python dictionaries: the outputs of `filter_pictureless` (dictionary mode) and `loadfeeds` are Dafny maps, which have no order. Neither program reads that order.
- Record values are text. Non-string JSON values, and their formatting by `"{full_name}".format`, are not modelled.
