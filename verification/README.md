# QuizWizz core in Dafny

This project models the logic at the heart of QuizWizz, a quiz application with a React frontend and a Django backend, and proves properties of it. Each part is written as immutable datatypes with pure functions; the small state machines are modelled as transition functions with lemmas about their steps.

- **The fill-in-the-gap codec** (`gap_encoding.dfy`). A question's per-gap candidate lists are flattened into one option list, each text tagged `__G<n>__`, and parsed back. The round trip is proved with its exact side conditions: every gap has a candidate, and no candidate text holds a line terminator.
- **Gap question recognition and validation** (`gap_questions.dfy`). Its checks run in their fixed order.
- **Splitting a gap question into text spans and dropdowns for play** (`gap_question.dfy`).
- **The question editor's checks** (`question_validation.dfy`):
  - unsaved input;
  - basic, gap and metadata validation;
  - keeping the gap entries in step with the text.
- **The quiz editor's list of questions and tags** (`quiz_editor.dfy`, newer page; `legacy_editor.dfy`, older page).
- **Play** (`play_state.dfy`, newer page; `legacy_play.dfy`, older page):
  - single-answer, multi-answer and per-gap grading;
  - selection toggling;
  - the disabled options;
  - the initially-wrong list;
  - moving on to the next question or to the results.
- **The results page's wrong list and retry** (`results.dfy`).
- **The backend's like/dislike counters** (`votes.dfy`), together with the client's choice of endpoint and its reaction record (`reactions.dfy`).
- **The image upload decision** (`upload.dfy`).
- **The data model's integrity rules and delete cascade** (`quiz_models.dfy`), and what the serializers send (`serializers.dfy`).
- **The home page's lists** (`home.dfy`) and the search bubble (`search.dfy`).
- **The message counters** (`messages.dfy`).
- **The quiz list and detail cache** (`quiz_cache.dfy`).
- **The comment helpers** (`comments.dfy`): initials, the 32-bit hash colour, emoji insertion, posting and paging.
- **The score store** (`scores.dfy`).
- **The two registration forms** (`registration.dfy`).

Shared pieces:

- `js_text.dfy`: the string primitives. `trim` is modelled exactly. A string is a `seq<char>` with one `char` per Unicode code point. JavaScript's `length`, `charCodeAt`, `slice` offsets and selection offsets count UTF-16 code units, so they go through `JsText.Utf16`, `JsText.Length` and `JsText.FitPrefix`.
- `stored_json.dfy`: parsed local-storage values.
- `rows.dfy`: table rows.
- `wrappers.dfy`: `Option` and `Validation`.

**Parameters and inputs.** Everything the code obtains from outside is an input to the model:

- server responses and failed requests;
- stored values;
- the clock;
- the generated file name.

Operations the model does not interpret are passed in as function parameters:

- `toLowerCase` and `toUpperCase` on arbitrary text;
- `localeCompare`;
- JSON parsing of an explanation.

**Timers.** Each timer is an explicit event: the delayed advance after a right answer is `TimerFires`.

## Model

| member | source | states |
|---|---|---|
| Search.TakeMatches | frontend/src/components/SearchOverlay.js:72-78 | taking matches stops at the requested count |
| Search.TakeMatchesIsFilterPrefix | frontend/src/components/SearchOverlay.js:72-78 | filtering and then slicing to n gives the first min(n, number of matches) matching quizzes of the full filtered list |
| Search.TakeMatchesFirst | frontend/src/components/SearchOverlay.js:72-78 | something is taken iff some quiz matches, and the first one taken is the earliest matching quiz in list order |
| Search.SearchMatches | frontend/src/components/SearchOverlay.js:66-79 | an empty normalised term yields no matches; otherwise exactly the first 8 quizzes matching by lower-cased name or tag, in list order (`filter(...).slice(0, 8)`), so every matching quiz when fewer than 8 match |
| Search.SubmitTarget | frontend/src/components/SearchOverlay.js:86-91 | submit navigates iff a first match exists, and to that match's id |
| Search.SubmitOpensFirstMatch | frontend/src/components/SearchOverlay.js:66-91 | submitting opens a quiz iff the normalised term is non-empty and some quiz matches it, and then the earliest matching quiz |
| Messages.Bump | frontend/src/context/MessagesContext.js:51-52 | incrementing one sender's property raises that sender's count by one, leaves every other sender's count alone, raises the total by one, adds the sender if absent, and keeps senders distinct and counts positive |
| Messages.GroupFromCounts | frontend/src/context/MessagesContext.js:49-53 | grouping adds the number of grouped messages to the total, each sender's count grows by the number of its messages, the senders are those already present plus those that sent something, and distinctness and positivity are kept |
| Messages.UnreadFor | frontend/src/context/MessagesContext.js:42-44 | the unread messages are exactly those addressed to the user and not read, kept in list order |
| Messages.LoadUnreadCounts | frontend/src/context/MessagesContext.js:33-59 | no user or a failed request changes nothing; otherwise unreadCount is the number of unread messages addressed to the user and unreadByUser maps exactly the senders of those messages, each to its positive count, once each |
| Messages.UnreadBySenderSums | frontend/src/context/MessagesContext.js:46-55 | the per-sender counts add up to unreadCount |
| Messages.LoadUnviewedQuizzes | frontend/src/context/MessagesContext.js:89-103 | no user or a failed request changes nothing; otherwise only the unviewed count changes, and it becomes the number of shares whose `is_viewed` is false: zero iff every share was viewed, the full length iff none was |
| Messages.UnviewedCount | frontend/src/context/MessagesContext.js:98 | the count is the number of shares not yet viewed, so it is zero iff all are viewed and the full length iff none is |
| Messages.SignedOut | frontend/src/context/MessagesContext.js:26-30 | without a user every counter is zero and no sender has a count |
| Messages.MarkConversationAsRead | frontend/src/context/MessagesContext.js:61-80 | no user or a failed fetch posts nothing; otherwise the ids posted are exactly those of the conversation's messages addressed to the user and unread |
| Messages.MarkedLeaveNoneUnread | frontend/src/context/MessagesContext.js:72-83 | once the posted messages are read, none of the conversation's messages counts as unread for the user |
| QuizCache.ByName | frontend/src/context/QuizContext.js:30 | ordering by name is a permutation of the list, non-decreasing in the names' rank, and stable: quizzes whose names rank equal keep their earlier order |
| QuizCache.FetchQuizzes | frontend/src/context/QuizContext.js:22-39 | a failed request keeps the state; a successful one stores a name-ordered permutation of the fetched list and touches nothing else |
| QuizCache.GetQuiz | frontend/src/context/QuizContext.js:45-65 | an empty id is refused; a temporary quiz wins, then a cached detail, then the server's answer, which is cached under the id asked for; a server error is reported as not found |
| QuizCache.FetchedIsCached | frontend/src/context/QuizContext.js:53-61 | once a quiz is found, asking again gives the same quiz and the same state whatever the server would now answer |
| QuizCache.RegisterTemporaryQuiz | frontend/src/context/QuizContext.js:67-72 | a missing quiz or one without an id is ignored; otherwise only the temporary entry under its id is set and every other entry is kept |
| QuizCache.TemporaryWins | frontend/src/context/QuizContext.js:50-72 | a registered temporary quiz is what getQuiz returns for its id, without asking the server |
| QuizCache.Created | frontend/src/context/QuizContext.js:111-113 | a created quiz joins the list as one more element and the list stays ordered by name |
| QuizCache.ReplaceById | frontend/src/context/QuizContext.js:153 | the mapping keeps the length and replaces exactly the positions whose id matches |
| QuizCache.Updated | frontend/src/context/QuizContext.js:152-154 | after an update the list has the same length, holds only the answer and the untouched quizzes with other ids, keeps every quiz with another id, holds the answer if the id was listed, is ordered by name, and the answer is cached under the id |
| QuizCache.Deleted | frontend/src/context/QuizContext.js:179-184 | after a delete the list holds exactly the quizzes with another id, in their old order, and the cache loses only that id |
| QuizCache.DeletedIsRefetched | frontend/src/context/QuizContext.js:179-184 | after a delete getQuiz asks the server again for that id (unless a temporary quiz has it) |
| QuizCache.JoinWithContains | frontend/src/context/QuizContext.js:96-97 | every piece of a join occurs in the joined text |
| QuizCache.FormatErrShowsEverything | frontend/src/context/QuizContext.js:94-99 | formatErr gives '' for null, a string itself, contains every element's format for an array and every "key: value" for an object, and a one-element array formats as its element |
| QuizCache.CreateErrorMessage | frontend/src/context/QuizContext.js:89-108 | the thrown message is never empty; for an object or array body with properties it names every field followed by ": "; otherwise it is the status line "Failed to create quiz (status)" |
| Comments.KeepAsciiAlnum | frontend/src/components/CommentsSection.js:10 | removing every character outside [a-zA-Z0-9] leaves exactly the ASCII letters and digits of the text, in their order; a text of only those is unchanged |
| Comments.UpperAscii | frontend/src/components/CommentsSection.js:11 | upper-casing an ASCII letter or digit moves a lower-case letter down by 32 and keeps everything else |
| Comments.Initials | frontend/src/components/CommentsSection.js:6-12 | '?' for a missing or blank name; otherwise the first two ASCII letters or digits of the trimmed name upper-cased, or, when it has none, the upper-cased characters within the trimmed name's first two UTF-16 code units |
| Comments.UpperFirstTwo | frontend/src/components/CommentsSection.js:11 | on ASCII letters and digits, one code unit each, `slice(0, 2)` keeps the first two characters (or all, if fewer), each upper-cased |
| Comments.InitialsAreAscii | frontend/src/components/CommentsSection.js:6-12 | a name containing an ASCII letter or digit gets one or two initials, all upper-case ASCII letters or digits |
| Comments.AlnumSurvivesTrim | frontend/src/components/CommentsSection.js:8-10 | a name with an ASCII letter or digit is not blank and keeps a letter or digit after trimming |
| Comments.Wrap32 | frontend/src/components/CommentsSection.js:19-20 | `hash &= hash` (ToInt32) gives a signed 32-bit value |
| Comments.Wrap32Congruence | frontend/src/components/CommentsSection.js:19-20 | the 32-bit wrap differs from its argument by a multiple of 2^32 |
| Comments.HashStep | frontend/src/components/CommentsSection.js:19-20 | one hash step on a UTF-16 code unit stays within the signed 32-bit range |
| Comments.Hash | frontend/src/components/CommentsSection.js:17-21 | the hash folds the string's UTF-16 code units, as `charCodeAt` reads them, and stays within the signed 32-bit range |
| Comments.HashAppendBmp | frontend/src/components/CommentsSection.js:18-20 | appending a character below U+10000 continues the hash as 31 * hash + its code, wrapped to 32 bits |
| Comments.HashAppendAstral | frontend/src/components/CommentsSection.js:18-20 | appending a character at or above U+10000 continues the hash twice, with its high surrogate and then its low surrogate |
| Comments.HashStepIsTimes31 | frontend/src/components/CommentsSection.js:19-20 | the step code + ((hash << 5) - hash), wrapped, equals 31 * hash + code wrapped to 32 bits |
| Comments.HashByte | frontend/src/components/CommentsSection.js:24 | (hash >> 8i) & 0xff is a byte |
| Comments.Hex2 | frontend/src/components/CommentsSection.js:25 | the two-digit padding of a byte is two lower-case hex digits whose value is the byte |
| Comments.StringToColor | frontend/src/components/CommentsSection.js:15-28 | '#888888' for the empty string; otherwise '#' and six lower-case hex digits, digits 2i+1 and 2i+2 spelling byte i of the 32-bit hash of the string's UTF-16 code units, least significant first |
| Comments.InsertEmoji | frontend/src/components/CommentsSection.js:106-121 | without the text area the emoji is appended and no caret is set; otherwise the caret is the selection start (the text's UTF-16 length when unknown) plus the emoji's UTF-16 length, and the emoji is in the new text |
| Comments.EmojisAreTwoUnits | frontend/src/components/CommentsSection.js:30 | every offered emoji is a single character of two UTF-16 code units |
| Comments.CaretAfterEmoji | frontend/src/components/CommentsSection.js:112-119 | with the selection given as UTF-16 offsets around a part of the text, the emoji replaces exactly that part, and the caret lands right after the emoji, counted in code units |
| Comments.EmojiAtEndByDefault | frontend/src/components/CommentsSection.js:112-118 | with no selection known, the emoji goes at the end of the text and the caret after it |
| JsText.FitPrefixLongest | frontend/src/components/CommentsSection.js:114 | a UTF-16 offset cuts the text after the longest run of whole characters that fits within it |
| JsText.FitPrefixOfLength | frontend/src/components/CommentsSection.js:114 | cutting at the code-unit length of a prefix cuts exactly that prefix |
| JsText.LengthInBmp | frontend/src/components/Register.js:29 | a string's UTF-16 length equals its number of characters iff every character is below U+10000 |
| Comments.TextToPost | frontend/src/components/CommentsSection.js:123-127 | posting happens iff signed in, with a quiz, and the text is not blank, and then the trimmed, non-empty text is posted |
| Comments.PostedTextIsTrimmed | frontend/src/components/CommentsSection.js:126-127 | a posted text starts and ends with a non-space and trimming it changes nothing |
| Comments.Posted | frontend/src/components/CommentsSection.js:146-148 | a posted comment is shown first, the rest of the list follows unchanged, and the input is cleared |
| Comments.PageLoaded | frontend/src/components/CommentsSection.js:58 | page 1 replaces the list; a later page is appended after it |
| Comments.PagesConcatenate | frontend/src/components/CommentsSection.js:58-76 | loading pages 1, 2, 3, … shows every page's comments in page order, whatever was shown before |
| Comments.LoadPagesFrom | frontend/src/components/CommentsSection.js:58 | pages after the first append to what is shown, in page order |
| StoredJson.Entries | frontend/src/context/ScoresContext.js:21-22 | Object.entries throws exactly for null; it gives an object's own properties, nothing for a number or a boolean, and for an array or a string exactly the decimal names of its positions, each with the item (for a string, the one-character string) there |
| StoredJson.IndexKeyedSpec | frontend/src/context/ScoresContext.js:22 | the property names of an array or string are exactly its positions in decimal, each holding its item |
| StoredJson.IndexKeyedItems | frontend/src/context/ScoresContext.js:22 | every position of an array or string is a property named by its decimal and holding the item there |
| Scores.ScoreRecord | frontend/src/context/ScoresContext.js:49 | a score record is an object with exactly the fields value and takenAt |
| Scores.NormaliseScore | frontend/src/context/ScoresContext.js:22-27 | an object or array is kept as it is; any other value becomes a record of it taken now; the result is always an object |
| Scores.NormaliseIdempotent | frontend/src/context/ScoresContext.js:22-27 | normalising a normalised value, at any later time, changes nothing |
| Scores.ReadInitialScores | frontend/src/context/ScoresContext.js:10-33 | no window, nothing stored, unparsable text or a stored null give {}; otherwise the same key set, each value normalised |
| Scores.RecordScore | frontend/src/context/ScoresContext.js:46-51 | recording sets the quiz's entry to a new record and leaves every other entry unchanged |
| Scores.StoreHoldsRecords | frontend/src/context/ScoresContext.js:21-51 | loading and recording leave only objects in the store |
| Scores.ReloadKeepsScores | frontend/src/context/ScoresContext.js:21-44 | a store of records persisted and read back on the next load is the same store, whatever the time |
| Registration.Check | frontend/src/components/Register.js:19-32 | the checks pass iff name and password are present, the confirmation matches and the password has at least 6 UTF-16 code units; each error is reported exactly when the earlier checks pass and its own fails |
| Registration.ThreeAstralCharactersSuffice | frontend/src/components/Register.js:29 | a confirmed password of three characters above U+FFFF passes the length check, since each counts two code units |
| Registration.PageSubmit | frontend/src/components/Register.js:14-45 | the account is requested iff the checks pass; a failed check shows its error, success goes home, a server failure shows the server's error |
| Registration.ModalSubmit | frontend/src/components/RegisterModal.js:12-46 | the account is requested iff the checks pass; a failed check or server failure keeps the modal open with the fields and the error; success clears the fields and closes it |
| Registration.FormsAgree | frontend/src/components/Register.js:19-32 | the page and the modal request an account for the same input and show the same error |
| Registration.RequestedPasswordsAreConfirmed | frontend/src/components/RegisterModal.js:17-34 | an account is requested only with a name and with a password of at least six UTF-16 code units typed twice alike |
| Votes.DislikeMirrorsLike | backend/backend/quizzes/views.py:54-69 | the dislike endpoint is the like endpoint with likes and dislikes exchanged |
| Votes.ActionsKeepCounters | backend/backend/quizzes/views.py:43-66 | neither endpoint makes a non-negative counter negative; the like endpoint never raises dislikes and the dislike endpoint never raises likes |
| Votes.ServeAllNonNegative | backend/backend/quizzes/views.py:43-66 | from non-negative counters no sequence of like and dislike requests makes a counter negative |
| Votes.LikeThenUnlike | backend/backend/quizzes/views.py:43-49 | none→like followed by like→none restores both counters |
| Reactions.EndpointFor | frontend/src/context/ReactionsContext.js:55-58 | the like endpoint is chosen iff the current reaction is like, or it is not dislike and the previous was like; the dislike endpoint symmetrically |
| Reactions.ReactionChangeDelta | frontend/src/context/ReactionsContext.js:55-73 | for every change between none, like and dislike, the chosen endpoint moves likes by [current=like]−[previous=like] and dislikes by [current=dislike]−[previous=dislike], given the lowered counter is positive |
| Reactions.RecordReaction | frontend/src/context/ReactionsContext.js:52-87 | no quiz id, or a body that is not JSON, changes nothing; otherwise only that quiz's entry is replaced, by an object with the current reaction and the time and with `likes` and `dislikes` present exactly when the answer has them, and then equal to them |
| Reactions.RecordHoldsServerCounters | frontend/src/context/ReactionsContext.js:76-86 | when the server answers with counters, the stored record holds exactly the counters the server computed for the request |
| Reactions.ErrorBodyLosesCounters | frontend/src/context/ReactionsContext.js:76-86 | an error object such as `{detail}` is still recorded, with the reaction and the time and with neither counter |
| Reactions.NormaliseReaction | frontend/src/context/ReactionsContext.js:24-33 | an object with a value property is kept, bare 'like' and 'dislike' are wrapped with the time, and everything else becomes undefined |
| Reactions.ReadInitialReactions | frontend/src/context/ReactionsContext.js:12-39 | no window, nothing stored, unparsable text or a stored null give {}; for a stored object every key is kept with its value normalised |
| Reactions.RecordedReactionNotReadBack | frontend/src/context/ReactionsContext.js:25-86 | a record written by recordReaction, whatever the answer's body, has no value property, so the next load reads it back as undefined |
| Upload.RoundDiv | backend/backend/quizzes/views.py:91 | round(n / d): the rounded value times d differs from n by at most d/2, and a quotient exactly halfway between two whole numbers goes to the even one |
| Upload.Extension | backend/backend/quizzes/views.py:97 | the extension is empty or a suffix of the name that starts with '.' and holds no further '.' or '/' |
| Upload.RootExtension | backend/backend/quizzes/views.py:97 | root and extension put back together give the name |
| Upload.StripTrailingSlashes | backend/backend/quizzes/views.py:108 | rstrip('/') gives a prefix of the text that does not end in '/', and everything it drops is '/' |
| Upload.UploadChecksInOrder | backend/backend/quizzes/views.py:77-95 | the upload is rejected, in this order, for a missing file, a content type not starting with "image/" (a missing type counts as ""), and a size over the limit; it is stored iff none applies |
| Upload.StrippedUrl | backend/backend/quizzes/views.py:108 | the URL built is the media URL without its trailing slashes, then "/quiz_images/", then the file name |
| Upload.StoredNameAndUrl | backend/backend/quizzes/views.py:97-109 | an accepted file is named by the fresh hex string and its lower-cased extension, and its URL is the stripped media URL, "/quiz_images/" and that name |
| Upload.WholeMegabytesNamed | backend/backend/quizzes/views.py:75-91 | a limit of k whole megabytes is named as k in the size message; the 5 MB `getattr` fallback would be named 5 |
| Upload.UnsetLimitNamedTwo | backend/backend/quizzes/views.py:74-95 | without a project setting the limit is Django's global default of 2,621,440 bytes, not the 5 MB fallback: an image is refused exactly when it is larger, and the message names 2 MB |
| QuizModels.NewQuestion | backend/backend/quizzes/models.py:36-46 | a question created without the optional fields has order 0, the multiple-choice type and no image |
| QuizModels.NewChoice | backend/backend/quizzes/models.py:55-61 | an option created without the optional fields is not correct and has no image |
| QuizModels.AddTag | backend/backend/quizzes/models.py:4-5 | adding a tag succeeds iff its name is at most 64 long and not taken, and keeps the schema's integrity rules |
| QuizModels.AddChoice | backend/backend/quizzes/models.py:55-65 | adding an option succeeds iff its question exists and has no option at that index, and keeps the integrity rules |
| QuizModels.DeleteQuestion | backend/backend/quizzes/models.py:56 | deleting a question removes exactly it and its options, keeps everything else and keeps the integrity rules |
| QuizModels.QuestionSurvives | backend/backend/quizzes/models.py:56 | an option of another question still finds its question after the delete |
| QuizModels.DeleteQuiz | backend/backend/quizzes/models.py:37-56 | deleting a quiz removes exactly it, its questions and their options, keeps the tags, the other quizzes and their questions and options, and keeps the integrity rules |
| QuizModels.QuizSurvives | backend/backend/quizzes/models.py:37 | a question of another quiz still finds its quiz after the delete |
| QuizModels.OptionsOf | backend/backend/quizzes/models.py:64 | a question's options come ordered by index and are exactly the options that belong to it |
| QuizModels.QuestionsOf | backend/backend/quizzes/models.py:49 | a quiz's questions come ordered by order and are exactly the questions that belong to it |
| QuizModels.OptionIndicesUnique | backend/backend/quizzes/models.py:65 | within one question no two options share an index |
| Serializers.SerializeChoice | backend/backend/quizzes/serializers.py:6-9 | a serialized option carries exactly its index and text |
| Serializers.CorrectIndex | backend/backend/quizzes/serializers.py:20-24 | the correct index is -1 iff no option is correct, and otherwise the index of the first correct option in the given order |
| Serializers.CorrectIndexIsSmallest | backend/backend/quizzes/serializers.py:20-24 | over options ordered by index, a correct index other than -1 is the smallest index of a correct option |
| Serializers.SerializeChoices | backend/backend/quizzes/serializers.py:13 | the options are serialized one for one, in order |
| Serializers.SerializeQuestion | backend/backend/quizzes/serializers.py:12-18 | a serialized question lists as many options as the question has |
| Serializers.OptionsOfMembers | backend/backend/quizzes/serializers.py:13-22 | the options the relation yields are exactly the question's options |
| Serializers.CorrectOptionBounds | backend/backend/quizzes/serializers.py:20-24 | any correct option of the question makes the correct index not -1 and at most that option's index |
| Serializers.CorrectIndexNamesOption | backend/backend/quizzes/serializers.py:20-24 | a correct index other than -1 is the index of a correct option of the question |
| Serializers.SerializedCorrectIndex | backend/backend/quizzes/serializers.py:20-24 | the serialized correct index is -1 iff no option of the question is correct, and otherwise the smallest index of a correct option |
| Serializers.SerializeQuestions | backend/backend/quizzes/serializers.py:29 | the questions are serialized one for one, in order |
| Serializers.SerializeQuiz | backend/backend/quizzes/serializers.py:27-33 | a serialized quiz lists as many questions as the quiz has |
| Serializers.QuestionCountMatchesDetail | backend/backend/quizzes/serializers.py:36-42 | question_count in the list view equals the number of questions the detail view lists |
| Results.WrongIds | frontend/src/pages/Results.js:21-24 | the wrong list holds exactly the non-empty comma-separated pieces of the parameter (an absent parameter counts as '') |
| Results.WrongIdsRoundTrip | frontend/src/pages/Results.js:21-24 | ids that are non-empty and comma-free, joined with ',' as the play page writes them, are read back exactly, in order |
| Results.MissedCount | frontend/src/pages/Results.js:59-73 | the missed count is the number of non-empty comma-separated pieces of the parameter, so zero (a perfect run) iff every piece is empty |
| Results.NonEmptyIsFilter | frontend/src/pages/Results.js:59 | dropping the empty pieces keeps exactly the non-empty ones, in order |
| Results.MissedCountAfterPlay | frontend/src/pages/Results.js:59 | after a play the missed count is the number of ids the play page reported wrong |
| Results.TempId | frontend/src/pages/Results.js:40-41 | the retry id ends in "-failed": an id that already ends so is kept, any other gets the suffix appended |
| Results.TempIdIdempotent | frontend/src/pages/Results.js:40-41 | retrying a retry reuses the same id |
| Results.Failed | frontend/src/pages/Results.js:36 | the retried questions are exactly those whose id is in the wrong list, in their original order |
| Results.RetryWrong | frontend/src/pages/Results.js:32-49 | nothing happens iff no question's id is in the wrong list (in particular for an empty list); otherwise the temporary quiz has the retry id, the name with " • Failed" and exactly the failed questions in order |
| Home.WithScore | frontend/src/pages/Home.js:49-57 | each quiz keeps its data, its net rating is likes − dislikes with missing counts as 0, and its last score and taken time come from its score entry (time 0 when absent) |
| Home.WithScores | frontend/src/pages/Home.js:48-59 | one derived entry per quiz, in list order |
| Home.FilterQuizzes | frontend/src/pages/Home.js:62-77 | a term blank after trimming keeps every quiz; otherwise a quiz stays iff its lower-cased name, some tag or its author contains the lower-cased untrimmed term; order is kept |
| Home.SortQuizzes | frontend/src/pages/Home.js:80-91 | the sorted list is a permutation of the filtered one, ordered by net rating descending for 'desc', ascending for 'asc', and by name rank for 'alpha', and stable: quizzes with equal keys keep their filtered order |
| Home.SortKeepsQuizzes | frontend/src/pages/Home.js:124-127 | sorting shows exactly the filtered quizzes, as many as before |
| Home.Recent | frontend/src/pages/Home.js:112-117 | recent holds exactly the quizzes with a non-zero taken time, each as often as in the list, most recent first, and those taken at the same time in list order |
| Home.RecentToDisplay | frontend/src/pages/Home.js:119-121 | at most the first two recent quizzes are shown |
| Home.RecentShowsMostRecent | frontend/src/pages/Home.js:112-121 | every shown recent quiz was taken, and no taken quiz left out was taken later than one shown |
| Home.FilterFavourites | frontend/src/pages/Home.js:93-110 | favourites are empty when signed out; otherwise they go through the same search filter and are not sorted |
| LegacyEditor.SomeCorrect | frontend/src/pages/CreateQuiz.js:105 | some option is marked correct |
| LegacyEditor.SomeBlank | frontend/src/pages/CreateQuiz.js:110 | some option's text is blank after trimming |
| Rows.Any | frontend/src/pages/CreateQuiz.js:105-110 | `some` holds exactly when some element meets the condition |
| LegacyEditor.QuestionChecksInOrder | frontend/src/pages/CreateQuiz.js:94-113 | addQuestion's checks run in the order blank text, fewer than 2 options, no correct option, blank option text, each reported exactly when the earlier ones pass, and all pass iff canAddQuestion holds |
| LegacyEditor.Indexed | frontend/src/pages/CreateQuiz.js:119-122 | the saved options keep text and correctness and are numbered by position |
| LegacyEditor.AddQuestion | frontend/src/pages/CreateQuiz.js:94-143 | a question is refused iff canAddQuestion fails, with the first failing check's message and nothing changed; an accepted one is appended with id "q"+(n+1), order n and position-numbered options, the editor is reset to two blank incorrect options, and the metadata is kept |
| LegacyEditor.RemoveQuestion | frontend/src/pages/CreateQuiz.js:145-152 | removing drops exactly the question at the position, renumbers every remaining one to order i and id "q"+(i+1), and changes nothing else |
| LegacyEditor.EditsKeepPositional | frontend/src/pages/CreateQuiz.js:115-152 | adding and removing keep every question numbered by its position, so the ids stay distinct |
| LegacyEditor.AddTag | frontend/src/pages/CreateQuiz.js:154-162 | the trimmed input is appended and the input cleared iff it is non-empty and not yet a tag; otherwise nothing changes |
| LegacyEditor.AddTagKeepsDistinct | frontend/src/pages/CreateQuiz.js:154-162 | adding a tag keeps the tag list free of duplicates |
| LegacyEditor.MetadataSubmit | frontend/src/pages/CreateQuiz.js:171-186 | a blank name is reported first, then a blank author; the questions screen opens iff both are filled |
| LegacyEditor.Submit | frontend/src/pages/CreateQuiz.js:188-196 | the quiz is sent iff it has at least one question, otherwise the no-questions message is shown |
| LegacyEditor.SubmitAfterAdd | frontend/src/pages/CreateQuiz.js:188-196 | once a question passes the checks and is added, the quiz can be submitted |
| LegacyPlay.Initial | frontend/src/pages/Play.js:10-36 | a new or changed quiz starts at index 0 with no selection, no disabled options, nothing revealed or processing, no wrong question and no advance scheduled |
| LegacyPlay.HandleSubmit | frontend/src/pages/Play.js:65-114 | a submit is ignored without a current question, while processing or revealed, or with no chosen index (an override wins over the selection); the index never changes; a right choice reveals, sets processing and schedules the advance; a wrong one marks the question initially wrong, adds exactly the choice to that question's disabled set, leaves other questions' sets alone and clears the selection |
| LegacyPlay.HandleOptionClick | frontend/src/pages/Play.js:116-122 | a click is ignored while processing or revealed; otherwise it selects the option and grades it at once |
| LegacyPlay.TimerFires | frontend/src/pages/Play.js:80-95 | the delayed step goes to the results after the last question, otherwise to the question after the one it was scheduled at, clearing the selection, the revealed flag and processing and keeping the disabled sets and the wrong list |
| LegacyPlay.DisabledOnlyGrows | frontend/src/pages/Play.js:98-102 | a question's disabled set only grows, under submits, clicks and the timer |
| LegacyPlay.ClickGrades | frontend/src/pages/Play.js:74-122 | a right click reveals and schedules the advance; a wrong click keeps the question, marks it initially wrong, leaves that option disabled and clears the selection |
| LegacyPlay.StepsKeepInv | frontend/src/pages/Play.js:83-97 | each question is listed at most once as initially wrong and only questions of the quiz are, so the results list each wrong question once |
| LegacyPlay.RightClickAdvances | frontend/src/pages/Play.js:74-95 | a right click on the last question leads to the results once the timer fires; on any other question to the next one with the selection cleared |
| GapEncoding.CountGapsZeroIff | frontend/src/utils/gapEncoding.js:15-32 | a text counts zero gaps exactly when it holds no underscore, so the gap count and the gap test agree |
| GapEncoding.ParseMarkerSpec | frontend/src/utils/gapEncoding.js:86 | the marker pattern matches exactly when the text starts with `__G`, at least one digit and `__`, and the rest has no line terminator; the text is then marker digits plus the captured rest |
| GapEncoding.ParseMarkerText | frontend/src/utils/gapEncoding.js:57-88 | parsing an encoded option text gives back its gap number and its text, and fails exactly when the text holds a line terminator |
| GapEncoding.StripGapMarker | frontend/src/utils/gapEncoding.js:127-131 | a text without a complete marker is returned unchanged; otherwise the result is what follows a marker of one or more digits |
| GapEncoding.StripMarkerText | frontend/src/utils/gapEncoding.js:127-131 | stripping the marker off an encoded option gives the option's own text back |
| GapEncoding.EncodeGapOptions | frontend/src/utils/gapEncoding.js:39-71 | the flat list holds as many options as all gaps together and numbers them 0, 1, 2, ... in order |
| GapEncoding.EncodedPosition | frontend/src/utils/gapEncoding.js:46-63 | candidate j of gap g is stored at flat position (candidates of earlier gaps) + j, with text `__G<g>__` + its text, its correctness flag, its image and that index |
| GapEncoding.EncodedExplanation | frontend/src/utils/gapEncoding.js:50-68 | the explanation field is empty exactly when every gap's explanation is blank; otherwise it maps exactly the gaps with a non-blank explanation to the trimmed explanation |
| GapEncoding.AddToGroup | frontend/src/utils/gapEncoding.js:143-156 | an option without a string text or a complete marker leaves the groups alone; otherwise its gap number is added to the keys and nothing else changes |
| GapEncoding.GroupOptionsByGapSpec | frontend/src/utils/gapEncoding.js:138-159 | a gap number is a key exactly when some option belongs to it, and its list holds, in order, exactly the entries of the options of that gap with the text after the marker and the option's index |
| GapEncoding.EntriesOfShape | frontend/src/utils/gapEncoding.js:151-155 | every grouped entry carries an option of the input, the text after its marker and the option's own index |
| GapEncoding.SortNumbers | frontend/src/utils/gapEncoding.js:110 | the gap numbers come out ascending and as a permutation of the input |
| GapEncoding.DecodedGapNumbers | frontend/src/utils/gapEncoding.js:82-110 | the decoded gaps are exactly the gap numbers some option carries, strictly ascending |
| GapEncoding.ExplanationFor | frontend/src/utils/gapEncoding.js:99-115 | a gap's explanation is the stored one when the explanations parse and hold that gap, and '' otherwise |
| GapEncoding.DecodeGapOptions | frontend/src/utils/gapEncoding.js:79-120 | one gap per gap number found, ascending; each holds the texts after the markers, flags and images of that gap's options in order, and its explanation |
| GapEncoding.DecodeEncode | frontend/src/utils/gapEncoding.js:39-120 | decoding an encoding gives back, in order, the gaps that have a candidate, with their candidates unchanged and their explanations trimmed, when no candidate text holds a line terminator |
| GapEncoding.DecodeEncodeAllNonEmpty | frontend/src/utils/gapEncoding.js:39-120 | when every gap has a candidate, decoding an encoding gives every gap back with its explanation trimmed |
| GapEncoding.DecodeSkipsUnmarked | frontend/src/utils/gapEncoding.js:85-87 | an option whose text is not a string or has no complete marker does not change the decoded gaps |
| GapEncoding.DecodeEncodeLosesLineTerminator | frontend/src/utils/gapEncoding.js:57-86 | a candidate text holding a line terminator is lost in the round trip: a gap whose only candidate it is decodes to nothing |
| GapQuestions.AnyMarked | frontend/src/utils/gapEncoding.js:16-18 | true exactly when some stored option has a string text starting with a complete gap marker |
| GapQuestions.IsFillGapQuestion | frontend/src/utils/gapEncoding.js:11-21 | a question is a gap question exactly when its text is a string holding an underscore and some option is marked (so never with no options) |
| GapQuestions.EncodedIsFillGap | frontend/src/utils/gapEncoding.js:11-21 | a text with a gap whose gaps were encoded, one with a candidate, is recognised as a gap question |
| GapQuestions.CountCorrect | frontend/src/utils/gapEncoding.js:203-204 | the correct count is positive exactly when some option is correct, and below the option count exactly when some option is incorrect |
| GapQuestions.SomeBlank | frontend/src/utils/gapEncoding.js:196 | true exactly when some option's text is blank after trimming |
| GapQuestions.GapProblemOrder | frontend/src/utils/gapEncoding.js:185-211 | a gap passes exactly when it is acceptable; it fails on too few options first, then on a blank option, then on lacking a correct or an incorrect option, each naming the gap 1-based |
| GapQuestions.CheckGapsFrom | frontend/src/utils/gapEncoding.js:185-214 | the loop accepts exactly when every remaining gap is acceptable; otherwise it reports the problem of the first failing gap |
| GapQuestions.ValidateGapQuestion | frontend/src/utils/gapEncoding.js:167-215 | valid exactly when the text has gaps, there is one entry per gap and every gap is acceptable; no underscore gives the no-gap error, a count mismatch the mismatch error, and otherwise the first failing gap's error |
| GapDropdowns.SplitRuns | frontend/src/pages/play/GapQuestion.js:15 | splitting with a capturing pattern alternates text pieces without `_` and runs of `_`, starting and ending with text |
| GapDropdowns.ConcatSplitRuns | frontend/src/pages/play/GapQuestion.js:15 | joining the split pieces gives the text back |
| GapDropdowns.RunCountSplitRuns | frontend/src/pages/play/GapQuestion.js:15-24 | the split holds exactly as many runs as the gap count |
| GapDropdowns.RenderFrom | frontend/src/pages/play/GapQuestion.js:22-59 | every rendered dropdown is the one of its gap, and every span holds a non-empty piece of the text |
| GapDropdowns.DropdownsPerGap | frontend/src/pages/play/GapQuestion.js:19-53 | the k-th dropdown in text order is bound to gap k, and there are exactly as many dropdowns as gaps |
| GapDropdowns.DropdownEntries | frontend/src/pages/play/GapQuestion.js:16-50 | the dropdown of gap g lists exactly the entries of the options marked with g, in option order |
| GapDropdowns.SpansAreText | frontend/src/pages/play/GapQuestion.js:54-58 | the spans are the non-empty text pieces between the runs, in order, and none holds an underscore |
| GapDropdowns.DropdownsDisabled | frontend/src/pages/play/GapQuestion.js:43 | every dropdown is disabled exactly while processing or revealed |
| GapDropdowns.ChoiceReportsIndex | frontend/src/pages/play/GapQuestion.js:39-47 | choosing the placeholder reports no choice, and choosing an entry reports that entry's global index |
| QuestionValidation.SomeFilled | frontend/src/hooks/useQuestionValidation.js:23-33 | true exactly when some option's text is not blank |
| QuestionValidation.SomeGapFilled | frontend/src/hooks/useQuestionValidation.js:29-37 | true exactly when some candidate of some gap has a non-blank text |
| QuestionValidation.NoGapFilledIff | frontend/src/hooks/useQuestionValidation.js:29-37 | no gap counts as filled in exactly when every candidate text is white space |
| QuestionValidation.SomeImage | frontend/src/hooks/useQuestionValidation.js:44 | true exactly when some option has an image |
| QuestionValidation.NothingUnsavedIff | frontend/src/hooks/useQuestionValidation.js:15-54 | nothing is unsaved exactly when the text, the explanation and the chosen type's option texts are blank and no image is set; basic options' images count for every type |
| QuestionValidation.SomeCorrect | frontend/src/hooks/useQuestionValidation.js:68 | true exactly when some option is marked correct |
| QuestionValidation.BasicValidationOrder | frontend/src/hooks/useQuestionValidation.js:59-77 | a basic question passes exactly when it has text, two or more options, a correct one and no blank one; each rejection is the first of these checks to fail |
| QuestionValidation.FillGapValidation | frontend/src/hooks/useQuestionValidation.js:82-89 | a gap question passes exactly when its text is filled in and the gap validation accepts it; a blank text is the first rejection and a per-gap rejection names the first failing gap |
| QuestionValidation.ValidateQuestion | frontend/src/hooks/useQuestionValidation.js:94-101 | an unknown type and only it is rejected as unknown; an accepted question always has text |
| QuestionValidation.ValidateMetadata | frontend/src/hooks/useQuestionValidation.js:106-112 | the metadata passes exactly when the name holds a non-space character; otherwise the error is the missing name |
| QuestionValidation.SyncGapOptionsWithText | frontend/src/hooks/useQuestionValidation.js:117-137 | the result has one entry per gap; existing entries keep their place and content, missing ones are added blank with two empty incorrect candidates, surplus ones are dropped from the end |
| QuestionValidation.SyncIdempotent | frontend/src/hooks/useQuestionValidation.js:117-137 | synchronising a second time with the same text changes nothing |
| QuizEditor.PositionalIdsDistinct | frontend/src/pages/create/index.js:367-373 | in a list numbered by position no two questions share an id |
| QuizEditor.IndexedOptions | frontend/src/pages/create/index.js:309 | each option keeps its text, flag and image and gets its position as index |
| QuizEditor.AddQuestionAsWritten | frontend/src/pages/create/index.js:295-350 | a save is refused exactly when validation fails; it fails for lack of a slot exactly when the edited slot lies past the end, or just past it for a gap question; a saved question clears the editor and selects the basic type; a replacement keeps the list length; a new question, or a basic one written just past the end, becomes the last one |
| QuizEditor.AsWrittenBasicEditMisnumbers | frontend/src/pages/create/index.js:304-329 | as written, a basic question put back into slot i gets the order and id of a new last question, so the list is no longer numbered by position |
| QuizEditor.AsWrittenBasicEditDuplicatesId | frontend/src/pages/create/index.js:304-335 | as written, after that the next new question receives the same id, so two questions share it |
| QuizEditor.AddQuestion | frontend/src/pages/create/index.js:295-350 | a save is refused with the validation message exactly when validation fails; a question put back into its slot keeps the slot's id and position whatever its type, nothing else in the list changes; a new one is appended with the next positional id; the editor is cleared to the basic type |
| QuizEditor.AddKeepsPositional | frontend/src/pages/create/index.js:304-335 | saving keeps the questions numbered by position |
| QuizEditor.SavedContent | frontend/src/pages/create/index.js:304-320 | the saved question holds the editor's text and image, a basic question's options numbered by position with its explanation, or a gap question's encoded options and explanations |
| QuizEditor.DropAt | frontend/src/pages/create/index.js:367-373 | filtering out position j removes exactly that element and keeps the others in order; a position past the end changes nothing |
| QuizEditor.Renumber | frontend/src/pages/create/index.js:372 | the renumbered list keeps every question's content and numbers them by position |
| QuizEditor.RemoveQuestionAsWritten | frontend/src/pages/create/index.js:367-387 | position j goes and the rest are renumbered; the editor is cleared when j is the edited slot, and otherwise the edited slot number and the draft are kept as they were |
| QuizEditor.AsWrittenRemoveShiftsEditedSlot | frontend/src/pages/create/index.js:374-386 | as written, removing a question before the edited slot leaves the slot number unchanged, so it names the next question or none |
| QuizEditor.AsWrittenRemoveThenSaveGapFails | frontend/src/pages/create/index.js:311-317 | as written, once the edited last question's slot is shifted past the end, an acceptable gap question cannot be saved: the slot names no question |
| QuizEditor.AsWrittenRemoveThenSaveBasicKeepsOld | frontend/src/pages/create/index.js:323-329 | as written, once the edited last question's slot is shifted past the end, saving an acceptable basic question appends it and the question it was loaded from stays in the list |
| QuizEditor.SaveAtEndAppends | frontend/src/pages/create/index.js:323-329 | as written, saving a basic question into the slot just past the end appends it and keeps every earlier question |
| QuizEditor.RemoveQuestion | frontend/src/pages/create/index.js:367-387 | the list loses exactly position j and stays numbered by position; the edit ends exactly when the removed question was the edited one, which clears the editor; tags and type are untouched |
| QuizEditor.RemoveKeepsEditedQuestion | frontend/src/pages/create/index.js:367-387 | removing another question keeps the editor pointing at the question being edited, at its new position |
| QuizEditor.AddTag | frontend/src/pages/create/index.js:449-457 | the trimmed input is appended and the input cleared exactly when it is non-empty and not yet a tag; questions and the editor are untouched |
| QuizEditor.AddTagKeepsDistinct | frontend/src/pages/create/index.js:449-457 | adding a tag keeps the tags free of duplicates |
| QuizEditor.RemoveTag | frontend/src/pages/create/index.js:459-464 | exactly the tag at position j goes and nothing else changes |
| QuizEditor.RemoveTagKeepsDistinct | frontend/src/pages/create/index.js:459-464 | removing a tag keeps the tags free of duplicates |
| QuizEditor.ChangeGapOption | frontend/src/pages/create/index.js:230-247 | the change applies when the gap exists and the candidate exists or comes right after the last one, or when gap and candidate are the first new ones; only that candidate's field changes |
| QuizEditor.TypedGapTextHasNoUnderscore | frontend/src/pages/create/index.js:237-239 | a candidate text typed into a gap never holds an underscore, is otherwise what was typed, and the other fields are kept |
| QuizEditor.EditableOptions | frontend/src/pages/create/index.js:431-435 | a stored option is edited with its text ('' when not a string), flag and image |
| QuizEditor.EditQuestion | frontend/src/pages/create/index.js:389-447 | nothing happens for a missing position, nor when unsaved input in another question would be lost and the user does not confirm; otherwise the question is loaded into that slot |
| QuizEditor.EmptyDraftHasNothingUnsaved | frontend/src/pages/create/index.js:337-346 | a cleared editor holds nothing unsaved, whatever type is selected |
| QuizEditor.ReopenEncodedQuestion | frontend/src/pages/create/index.js:407-424 | reopening a stored question whose options encode some gaps gives back a gap question with those gaps, explanations trimmed |
| QuizEditor.SaveThenReopenGapQuestion | frontend/src/pages/create/index.js:407-424 | an acceptable new gap question, once saved and reopened, comes back with the same text and gaps, explanations trimmed, when no candidate holds a line terminator |
| QuizEditor.ReopenIndexedQuestion | frontend/src/pages/create/index.js:425-438 | reopening a stored question whose unmarked options are numbered by position gives back a basic question with those options |
| QuizEditor.SaveThenReopenBasicQuestion | frontend/src/pages/create/index.js:425-438 | an acceptable new basic question without marker-like option texts, once saved and reopened, comes back with the same text, options, image and explanation |
| QuizEditor.SubmitStepFor | frontend/src/pages/create/index.js:479-501 | submitting asks for a question exactly when there is none, asks to discard exactly when there are questions and unsaved input, and shows the preview otherwise |
| QuizEditor.PreviewAfterSave | frontend/src/pages/create/index.js:479-501 | right after a question is saved the preview opens without asking |
| PlayState.CorrectIndexList | frontend/src/hooks/useQuizPlayState.js:48-53 | empty exactly when no option is correct, and holds exactly the indices of the correct options |
| PlayState.HasManyCorrectIff | frontend/src/hooks/useQuizPlayState.js:36-45 | more than one correct option is counted exactly when two different options are correct |
| PlayState.QuizHasMultiAnswer | frontend/src/hooks/useQuizPlayState.js:33-39 | true exactly when some question of the quiz has more than one correct option |
| PlayState.CorrectIndices | frontend/src/hooks/useQuizPlayState.js:48-53 | nothing for a gap question; otherwise exactly the indices of the correct options |
| PlayState.Without | frontend/src/hooks/useQuizPlayState.js:124 | removes exactly the given index, changes nothing when it is absent, and keeps a list free of repeats |
| PlayState.Toggle | frontend/src/hooks/useQuizPlayState.js:122-128 | the clicked index changes membership, every other index keeps it, and repeats never appear |
| PlayState.ToggleTwice | frontend/src/hooks/useQuizPlayState.js:122-128 | toggling twice restores the selected set, and the list itself when the index was not selected |
| PlayState.HandleOptionClick | frontend/src/hooks/useQuizPlayState.js:114-133 | a click is ignored while processing or revealed, and in a multi-answer quiz on a verified index; otherwise it toggles the index in a multi-answer quiz and selects it in any other; nothing but the selection changes |
| PlayState.ClickTwiceRestores | frontend/src/hooks/useQuizPlayState.js:114-133 | in a multi-answer quiz two clicks on the same index leave the selected set as it was |
| PlayState.ChangeGapSelection | frontend/src/pages/play/index.js:289-291 | exactly the chosen gap's selection is set; every other gap and the rest of the state are unchanged |
| PlayState.AllSelectedBelow | frontend/src/hooks/useQuizPlayState.js:142-146 | true exactly when every gap below the count has a non-null selection |
| PlayState.IsSubmitDisabled | frontend/src/hooks/useQuizPlayState.js:136-155 | disabled while processing; for a gap question exactly when the text has no gap or a gap below the count lacks a selection; in a multi-answer quiz exactly when nothing is selected; otherwise exactly when no index is selected |
| PlayState.FindEntry | frontend/src/pages/play/index.js:124 | none exactly when no entry has the index; otherwise the first entry with that index |
| PlayState.GapRightSpec | frontend/src/pages/play/index.js:121-134 | a gap is right exactly when the first option of that gap whose index is the selected value is correct |
| PlayState.GapsWhere | frontend/src/pages/play/index.js:118-134 | the gaps listed are exactly the graded gaps answered right, or exactly those answered wrong |
| PlayState.AddOnce | frontend/src/pages/play/index.js:246 | adding to the set adds the id, keeps earlier members in order and never repeats one |
| PlayState.RecordWrong | frontend/src/pages/play/index.js:246-283 | the question joins the initially wrong set and the attempt is appended to its own list; other questions' attempts are untouched |
| PlayState.OnRight | frontend/src/pages/play/index.js:216-244 | a right answer is revealed; without an explanation it stays busy and schedules the advance from the current question; with one it waits |
| PlayState.GradeGaps | frontend/src/pages/play/index.js:118-194 | the selections become the answer; the answer is revealed exactly when every gap is right, with every gap verified; otherwise exactly the wrong gaps are flagged, the right ones join the verified ones and the attempt is recorded |
| PlayState.SubmitGap | frontend/src/pages/play/index.js:105-117 | a gap submit does nothing unless some gap is decoded and every decoded gap has a selection, and then grades the gaps |
| PlayState.MultiRightIffSameSet | frontend/src/pages/play/index.js:200-203 | the size-and-subset check accepts exactly the selections naming the same set of indices as the correct options |
| PlayState.SubmitMulti | frontend/src/pages/play/index.js:199-270 | the selection becomes the answer; it is right exactly when it names the correct set; otherwise the wrongly selected indices are flagged, the rightly selected ones verified and the attempt recorded |
| PlayState.KeptAreCommon | frontend/src/pages/play/index.js:255-256 | the selected indices kept by `filter(idx => correctSet.has(idx))` are, as a set, exactly those both selected and correct |
| PlayState.RejectSingle | frontend/src/pages/play/index.js:271-283 | the wrong choice is disabled for this question only and the attempt recorded |
| PlayState.SubmitSingle | frontend/src/pages/play/index.js:206-283 | the override wins over the selection and with neither nothing happens; the choice becomes the answer and is revealed exactly when it is the correct index; a wrong one is disabled for this question only and recorded |
| PlayState.HasExplanation | frontend/src/pages/play/index.js:34-45 | an empty or absent explanation never counts; for a gap question it counts exactly when it parses with at least one key |
| PlayState.HandleSubmit | frontend/src/pages/play/index.js:98-214 | a submit is ignored without a current question or while processing or revealed; the index is unchanged and only the current question can join the initially wrong ones, at most once (the three grading routes are stated by PlayState.GapRoute, PlayState.MultiRoute and PlayState.SingleRoute) |
| PlayState.NoFlagsNoGapRight | backend/backend/quizzes/serializers.py:6-9 | when the options carry no correctness flags, no quiz counts as multi-answer and no gap can be answered right |
| PlayState.EnabledGapSubmitGrades | frontend/src/hooks/useQuizPlayState.js:139-147 | an enabled submit button grades a gap question when every decoded gap lies below the text's gap count |
| PlayState.ResetQuestionState | frontend/src/hooks/useQuizPlayState.js:91-100 | the selections, the verified sets, the flagged gaps, the revealed flag and processing are cleared; the index, the disabled options, the flagged indices and the bookkeeping are kept |
| PlayState.Initial | frontend/src/hooks/useQuizPlayState.js:56-79 | a new or changed quiz starts at question 0 with nothing answered, nothing disabled and no timer pending |
| PlayState.AdvanceFrom | frontend/src/pages/play/index.js:155-309 | moving on after the last question shows the results with the initially wrong ids and the answers; otherwise the next question starts with a fresh question state |
| PlayState.ContinueToNext | frontend/src/pages/play/index.js:293-310 | continuing does nothing until the answer is revealed, then moves on from the current question |
| PlayState.TimerFires | frontend/src/pages/play/index.js:154-243 | the scheduled advance moves on from the question it was scheduled at; with none scheduled nothing happens |
| PlayState.InitialInv | frontend/src/hooks/useQuizPlayState.js:68 | the start state keeps the invariant: no wrong id repeated or foreign, no selected index repeated |
| PlayState.ChoicesKeepInv | frontend/src/hooks/useQuizPlayState.js:114-133 | clicking an option and choosing a gap option keep the invariant |
| PlayState.SubmitKeepsInv | frontend/src/pages/play/index.js:98-287 | submitting keeps the invariant |
| PlayState.AdvanceKeepsInv | frontend/src/pages/play/index.js:155-310 | moving on keeps the invariant, and the results list each wrong question once and only questions of the quiz |
| PlayState.RightSingleAnswerAdvances | frontend/src/pages/play/index.js:216-243 | a right single answer without an explanation schedules the advance, which reaches the next question or the results |
| PlayState.RightSingleAnswerWaits | frontend/src/pages/play/index.js:216-310 | a right single answer with an explanation is revealed and waits for the player to continue |
| PlayState.SingleRoute | frontend/src/pages/play/index.js:105-214 | outside gap questions and multi-answer quizzes a question is graded by its single chosen index |
| PlayState.GapRoute | frontend/src/pages/play/index.js:105-197 | a gap question is graded by its gaps in every kind of quiz: nothing happens until every decoded gap has a selection, then the gaps are graded |
| PlayState.MultiRoute | frontend/src/pages/play/index.js:199-206 | in a quiz with a multi-answer question any other question records its selected indices as the answer and is revealed exactly when they are the indices of the correct options, whatever the override |
| PlayState.AcceptGaps | frontend/src/pages/play/index.js:139-143 | all gaps right: every decoded gap is verified, none flagged, the answer revealed, and the wrong bookkeeping untouched |
| PlayState.RejectGaps | frontend/src/pages/play/index.js:171-184 | some gap wrong: the wrong gaps are flagged, the verified set replaced by the kept one and the attempt recorded |
| PlayState.ResetKeepsInv | frontend/src/hooks/useQuizPlayState.js:91-100 | a fresh question state keeps the invariant |
| PlayState.RightSingleReveals | frontend/src/pages/play/index.js:212-227 | a right single answer is revealed, on the same question, and schedules the advance from it exactly when there is no explanation |
| PlayState.TimerAfterReveal | frontend/src/pages/play/index.js:228-243 | the advance scheduled at question i leads to question i + 1 with a fresh state, or to the results after the last question |

## Left out

- HTTP requests, cookies, local-storage and session-storage access, and navigation are not modelled as effects. Their results are inputs: a failed request is `None`.
- Timers are not modelled as time:
  - The delayed advance after a right answer is an explicit event (`PlayState.TimerFires`, `LegacyPlay.TimerFires`).
  - The 2-second clearing of the flagged options and gaps is not modelled, because it only changes highlighting.
  - The "try again" toast and its timeout are not modelled.
  - The popup's auto-dismissal is not modelled.
- The percentage score is floating point (`Math.round` of a ratio) and is not modelled. Only the list of wrong ids it is computed from is.
- The score parameter that the results page reads back is not modelled either.
- URL encoding and JSON serialisation of the `answers` and `incorrect` parameters are not modelled. The results page reads the `wrong` list as a comma-separated string.
- `localeCompare` and `toLowerCase`/`toUpperCase` on non-ASCII text are function parameters, because their behaviour depends on the locale and on Unicode tables. The ASCII upper-casing used for initials is modelled exactly.
- JSON parsing of a stored explanation is a parameter of the editor's reopen step. The explanations the encoder produces are modelled as a map from gap number to text.
- Comments.Initials: for a name without ASCII letters or digits whose second code unit is the high half of a surrogate pair, `slice(0, 2)` keeps a lone surrogate. A lone surrogate is not a Dafny character, so the model keeps only the first character there.
- Comments.InsertEmoji: a selection end that falls between the two halves of a surrogate pair is rounded down to the start of that character. A browser would split the pair.
- GapEncoding.DecodeGapOptions: a marker's gap number is read exactly, as an unbounded integer. `parseInt` gives a double, so in JavaScript a number above 2^53 is rounded to the nearest double when it has none of its own, and distinct long markers such as `__G9007199254740992__` and `__G9007199254740993__` fall into one gap. Numbers of 10^21 and above are also looked up in the explanations under their exponent spelling ("1e+21"). The same holds for `GapEncoding.ParseMarker`, `GapEncoding.GroupOptionsByGapSpec` and `GapEncoding.DecodedGapNumbers`, which read the number the same way.
- StoredJson.Entries: a stored string is indexed per character (code point), where `Object.entries` indexes it per UTF-16 code unit. A stored astral character such as "🙂" gives one entry in the model, where JavaScript gives two entries holding lone surrogates, which are not Dafny characters.
- Reactions.RecordReaction: a JSON body that is not an object (such as `null`, whose property reads throw) is not modelled. An unparsable body, such as an HTML error page, counts as a rejected `res.json()` and changes nothing.
- Reading a JSON object back keeps the key order of a JavaScript object only as a sequence of pairs. Integer-like keys, which JavaScript orders first, are not reordered.
- The order of questions by (order, id), and of tags and quizzes by name, is the database's `Meta.ordering`. The model states ordering by `order` and by option index only. Ties and name order belong to the database's collation.
- The older editor's option editing (`addOption`, `removeOption`, `handleOptionChange`) and its `removeTag` are not modelled. They are plain list edits that its checks do not depend on.
- The newer editor's image upload handlers, its scrolling, its question-type switch and `submitQuiz` are not modelled. The create and update requests are covered by the quiz list context.
- The formatting of the error message when an update fails (`frontend/src/context/QuizContext.js:137-149`) is not modelled. The formatting of nested errors that it reuses is modelled (`QuizCache.FormatErrShowsEverything`).
- Marking a conversation as read is modelled as the choice of messages to mark. The sequence of requests, and a failure part-way through it, are not modelled.
- Saving into a slot two or more past the end of the question list (possible in the editor as written) would leave holes in a JavaScript array. The model reports such a save as a missing slot.
- The upload endpoint's file write, directory creation and random name are not modelled. The hexadecimal name is a parameter.
- The project's Django settings module is not part of this model. So the upload limit is a parameter of `Upload.UploadImage`, and `Upload.MaxFileSize` takes the project's `FILE_UPLOAD_MAX_MEMORY_SIZE`, if any, as an input. Without one, Django's global default of 2,621,440 bytes applies, because Django's settings object always defines the name. The 5 MB fallback in `views.py` is never taken.
- Concurrent requests, such as two votes racing on the same counter, are not modelled. The model is sequential.
- The database migrations and seed data are not modelled.
- Components that only render data are not modelled, nor are the theme, search-visibility and modal toggles.
- `views.py` reads `likes` and `dislikes` fields that `models.py` does not declare. The counters are modelled as the view uses them, separately from the table model.
- The choice serializer sends only an option's index and text. So the play page, reading `is_correct`, sees no correct option on a served quiz: `PlayState.NoFlagsNoGapRight` states what follows for gap grading and the multi-answer test.

## Findings

| source | as written | input that shows it | evidently intended | confidence | as-written member | corrected member |
|---|---|---|---|---|---|---|
| frontend/src/pages/create/index.js:304-310 | A basic question saved while editing slot i always gets order n and id `q<n+1>`, where n is the number of questions. Only a gap question keeps the edited slot's id and order. | Three saved questions; edit the first (a basic question) and save it. It gets order 3 and id `q4`. Adding one more question gives a second `q4`. | A question put back into its slot keeps that slot's id and position, whatever its type. | not executed | QuizEditor.AsWrittenBasicEditMisnumbers | QuizEditor.AddKeepsPositional |
| frontend/src/pages/create/index.js:367-387 | Removing a question before the edited slot renumbers the list but leaves `editingQuestionIndex` as it was. | Three questions; edit the third (slot 2), then remove the first. The slot still says 2, but the edited question now sits at slot 1. Saving a gap question then reads the id of a missing question. Saving a basic question appends it, so the old version stays next to the new one. | The edited slot moves down with its question. | not executed | QuizEditor.AsWrittenRemoveThenSaveBasicKeepsOld | QuizEditor.RemoveKeepsEditedQuestion |
