# plantastic, modelled in Dafny

plantastic is a plant-care Telegram Mini App:

- a FastAPI backend that checks the Mini App's signed `initData`, issues session tokens and stores care tasks;
- a plant classifier service and a plant disease service, each with an HTTP endpoint in front of a neural network;
- a TypeScript page script that draws a week strip, a month calendar and a "my plants" list.

This project models the decision logic of those parts:

- **Telegram handshake** (`telegram_validation.dfy`). The `initData` pairs become a dictionary in which the last occurrence wins. `hash` is required and removed. The data-check string is the `key=value` lines in ascending key order, joined by newlines. The checks then run in order: digest, `user` field, one-hour freshness. Session tokens carry a fixed claim set and are refused without `telegram_auth`. HMAC-SHA256, hex and UTF-8 encoding, `parse_qsl`, `json.loads`, `int()` and the JWT library are uninterpreted functions in a `Primitives` value. The clock is a parameter.
- **Task validation and queries** (`task_schemas.dfy`, `task_store.dfy`). The schema validators of `schemas.py` accept text of 1..1000 characters that is not blank, and return it stripped. They accept a date that is not before today, and `TaskUpdate` passes `None` through. The endpoints of `main.py` declare their own `TaskCreate` without validators, so `add_task` stores the text exactly as sent. The store is a sequence of `(id, date, text)` records. `add_task` appends one record with a fresh id; `get_tasks` returns exactly one day and `get_week_tasks` exactly `[today, today + 7]`.
- **Classifier upload endpoint** (`classifier_router.dfy`). An upload is admitted by content type or by the lower-cased `pathlib` suffix of its file name. Then come the 10 MiB limit, the 415 detail text, the display formatting of class names (`_` to space, then `str.title()`), and the mapping of each failure to its HTTP status.
- **Top-k predictions** (`ranking.dfy`, `plant_classifier.dfy`, `disease_inference.dfy`). `torch.topk` is specified relationally: distinct indices, best first, and no index left out scores higher than one taken. It is implemented by selection. `predict` clamps `top_k` to the number of classes. The class-name file is read line by line and stripped. `run_inference` reports exactly three classes with display names.
- **Disease endpoint** (`disease_predict.dfy`): the health report, the file-name checks, and the statuses the endpoint produces.
- **Page script** (`civil_calendar.dfy`, `frontend.dfy`):
  - `Date` arithmetic on whole local days: `getDate`, `getMonth`, `getFullYear`, `getDay`, `setDate`, `setMonth` and `new Date(y, m, d)`, including carrying across months and years in the proleptic Gregorian calendar. All three rest on ECMAScript's MakeDay; the constructor alone first reads a year 0..99 as 1900..1999. A date is a day number counted from 1 January 1970, and `CivilFromDays` counts day by day from that origin.
  - The Monday-based week start and ±7-day navigation.
  - The month grid and month navigation.
  - The event text, the counters, and appending plants.
  - The class `FrontEnd.Page` holds the page state the handlers change. Its fields are the module-level variables `currentStartDate`, `selectedDate` and `plants`, and the counters, which the script keeps as text in the DOM. `waterSetupDone` is not modelled.

Python string semantics (`strip`, `lower`, `upper`, `title`, `replace`, `endswith`, `join`, ordering) are in `pystr.dfy`. `Option`, `Result` and byte strings are in `wrappers.dfy`.

## Model

| member | source | states |
|---|---|---|
| PyStr.Strip | backend/schemas.py:14-16 | `strip()` yields a trimmed contiguous slice of the input; it is empty iff the input is all whitespace |
| PyStr.StripUnique | backend/schemas.py:16 | whitespace around a trimmed non-empty core strips to exactly that core |
| PyStr.StripIdempotent | backend/schemas.py:16 | stripping twice equals stripping once |
| PyStr.Lower | classifier/classifier/api/router.py:32 | `lower()` keeps the length, maps every character by `LowerChar` and leaves no upper-case letter |
| PyStr.Upper | classifier/classifier/api/router.py:52 | `upper()` keeps the length and maps every character by `UpperChar` |
| PyStr.LowerOfUpper | disease/disease_app/api/predict.py:57-58 | lower-casing an upper-cased string gives the same as lower-casing it |
| PyStr.Title | classifier/classifier/api/router.py:79 | `title()` keeps the length; a character is upper-cased when it is first or follows an uncased character, and lower-cased otherwise |
| PyStr.TitleRule | classifier/classifier/api/router.py:79 | after `title()` a cased character is upper case iff it is first or follows an uncased character |
| PyStr.CasedKept | classifier/classifier/api/router.py:79 | `title()` keeps which characters are cased and leaves uncased ones unchanged |
| PyStr.TitleIdempotent | classifier/classifier/api/router.py:79 | title-casing twice equals title-casing once |
| PyStr.ReplaceChar | classifier/classifier/api/router.py:79 | `replace(a, b)` on one character keeps the length and substitutes exactly the occurrences of `a` |
| PyStr.DisplayName | classifier/classifier/api/router.py:79 | the display name has the class name's length and no `_`; uncased characters become space (for `_`) or stay; cased ones are upper case iff first or after an uncased character |
| PyStr.RFind | classifier/classifier/api/router.py:32 | the index of the last occurrence of a character, or -1 when there is none |
| PyStr.Join | backend/telegram_validation.py:71 | `sep.join(parts)` is empty for no parts, starts with the first part, ends with the last, and has the separator between consecutive parts |
| PyStr.StrLtIrreflexive | backend/telegram_validation.py:68 | the string order of `sorted` is irreflexive |
| PyStr.StrLtTransitive | backend/telegram_validation.py:68 | the string order is transitive |
| PyStr.StrLtTotal | backend/telegram_validation.py:68 | any two distinct strings are ordered one way or the other |
| PyStr.StrLtAsymmetric | backend/telegram_validation.py:68 | the string order is asymmetric |
| Ranking.MissingIndex | classifier/classifier/models/plant_classifier.py:119 | a repetition-free index list shorter than `n` misses some index below `n`, so selection can always continue |
| Ranking.TopK | classifier/classifier/models/plant_classifier.py:119 | `torch.topk`'s indices: `k` distinct in-range indices in non-increasing score order, none left out scoring higher than one taken |
| TelegramValidation.Get | backend/telegram_validation.py:120-124 | `dict.get`: the bound value, or null for a missing key |
| TelegramValidation.DictOf | backend/telegram_validation.py:52-55 | `dict(pairs)` has exactly the keys that occur among the pairs |
| TelegramValidation.LastOccurrenceWins | backend/telegram_validation.py:55 | for a repeated key the value of its last occurrence is kept |
| TelegramValidation.PairInDict | backend/telegram_validation.py:55 | with distinct keys every pair is read back from the dictionary unchanged |
| TelegramValidation.ReorderedPairsSameDict | backend/telegram_validation.py:55 | reordering pairs with distinct keys gives the same dictionary |
| TelegramValidation.SortedSeq | backend/telegram_validation.py:68 | `sorted(keys)` is strictly ascending and has exactly the keys |
| TelegramValidation.SortedUnique | backend/telegram_validation.py:68 | a set has only one strictly ascending enumeration |
| TelegramValidation.Insert | backend/telegram_validation.py:68 | inserting a new key into an ascending list keeps it ascending and adds exactly that key |
| TelegramValidation.SortedKeys | backend/telegram_validation.py:68 | the loop yields exactly the keys in ascending order |
| TelegramValidation.DataCheckStringShape | backend/telegram_validation.py:61-71 | the data-check string: no `hash` line, one `key=value` line for every other key that occurs, ascending keys, newline-separated, nothing after the last line |
| TelegramValidation.ReorderedPairsSameCheckString | backend/telegram_validation.py:67-71 | reordering pairs with distinct keys does not change the data-check string |
| TelegramValidation.ParsedUser | backend/telegram_validation.py:87-101 | a missing, empty or null `user` is 400; undecodable JSON is 400; otherwise the decoded value is returned |
| TelegramValidation.AuthDate | backend/telegram_validation.py:102 | a missing `auth_date` counts as 0 |
| TelegramValidation.DataCheckString | backend/telegram_validation.py:67-71 | the data-check string of the remaining fields: their `key=value` lines in ascending key order, joined by newlines (its shape is proved by `DataCheckStringShape`) |
| TelegramValidation.InitDataVerdict | backend/telegram_validation.py:41-109 | 400 iff there is no `hash`; 401 iff the digests differ, before any user check; the user error once the digest passed; 401 iff more than 3600 s old once digest and user passed; a request passing every check, exactly 3600 s old included, is accepted with its decoded user; success returns only that user; statuses only 400/401/500 |
| TelegramValidation.ReorderedPairsSameVerdict | backend/telegram_validation.py:52-109 | reordering pairs with distinct keys does not change the verdict |
| TelegramValidation.SessionClaims | backend/telegram_validation.py:119-128 | the claim set has exactly eight keys; `user_id` is the user's `id`, `telegram_auth` is true, `exp` is 24 h after now, `auth_date` is the user's or now |
| TelegramValidation.TokenVerdict | backend/telegram_validation.py:137-152 | every failure is 401; accepted iff decoded with a truthy `telegram_auth`, returning the claims unchanged |
| TelegramValidation.IssuedClaimsAccepted | backend/telegram_validation.py:127-143 | the claims this validator issues always pass the `telegram_auth` check |
| TelegramValidation.TelegramDataValidator.constructor | backend/telegram_validation.py:22-38 | the secret key is HMAC-SHA256 of the bot token under the key `WebAppData` |
| TelegramValidation.TelegramDataValidator.ValidateInitData | backend/telegram_validation.py:41-109 | the step-by-step validation (dictionary, `pop`, the line loop, join, digest, user, freshness) returns exactly `InitDataVerdict` |
| TelegramValidation.TelegramDataValidator.VerifyJwtToken | backend/telegram_validation.py:133-152 | every failure is 401; success returns the decoded claims, whose `telegram_auth` is truthy |
| TelegramValidation.TelegramDataValidator.IssuedTokenVerifies | backend/telegram_validation.py:113-152 | a token this validator issued, when decoded intact, verifies to its claims, with `user_id` the user's `id` |
| TaskSchemas.ValidateText | backend/schemas.py:8-16 | accepted iff 1..1000 characters and not blank; too short, too long and blank are distinct errors; the result is the stripped text, non-empty, trimmed and stable under stripping |
| TaskSchemas.ValidateDate | backend/schemas.py:20-24 | accepted iff not before today, unchanged |
| TaskSchemas.ValidateOptionalText | backend/schemas.py:29-38 | `None` passes; a string follows `ValidateText` exactly |
| TaskSchemas.ValidateOptionalDate | backend/schemas.py:40-46 | `None` passes; a date is accepted iff not before today, unchanged |
| TaskSchemas.ValidateTaskCreate | backend/schemas.py:5-24 | valid iff both fields are; the task holds the date and the stripped text; a refusal carries one or two field errors |
| TaskSchemas.ValidateTaskUpdate | backend/schemas.py:26-46 | valid iff both optional fields are; nothing given is valid and changes nothing; the date passes unchanged and a given text is stripped; a refusal carries one or two field errors |
| TaskStore.DatedBetween | backend/main.py:57 | the filter result is no longer than the store |
| TaskStore.DatedBetweenMembers | backend/main.py:50-57 | a record is in the result iff it is stored and its date lies in the inclusive range |
| TaskStore.DatedBetweenAppend | backend/main.py:41-50 | after an append the query gives the earlier answer, followed by the new record when it matches |
| TaskStore.TaskStore.AddTask | backend/main.py:39-45 | exactly one record is appended with the given date and text and a fresh id; earlier records are unchanged; that day's query gains exactly the new record |
| TaskStore.TaskStore.GetTasks | backend/main.py:48-50 | exactly the stored records dated `d` |
| TaskStore.TaskStore.GetWeekTasks | backend/main.py:53-57 | exactly the records dated today to today + 7 inclusive; never yesterday or today + 8 |
| PlantClassifier.FirstLineLength | classifier/classifier/models/plant_classifier.py:45 | the first line of a text runs up to and including its first line break, or to the end |
| PlantClassifier.ReadLines | classifier/classifier/models/plant_classifier.py:45 | `readlines()` splits the text into non-empty pieces that concatenate back to it; each piece but the last ends in its only line break |
| PlantClassifier.StrippedLineHasNoBreak | classifier/classifier/models/plant_classifier.py:45 | a line stripped of surrounding whitespace keeps no line break |
| PlantClassifier.LoadClassNames | classifier/classifier/models/plant_classifier.py:41-48 | one class name per line, in file order, each the stripped line, trimmed and without line breaks |
| PlantClassifier.ClampTopK | classifier/classifier/models/plant_classifier.py:109-110 | the effective k is `min(top_k, num_classes)` |
| PlantClassifier.Classifier.constructor | classifier/classifier/models/plant_classifier.py:30-31 | the class names come from the class-name file and `num_classes` is their count |
| PlantClassifier.Classifier.Predict | classifier/classifier/models/plant_classifier.py:108-136 | raises iff `top_k` is negative; otherwise effective-k entries, each naming `class_names[idx]` with that index's score, for a valid top-k index list, best first |
| ClassifierRouter.Name | classifier/classifier/api/router.py:32 | `Path(filename).name` contains no `/` and is never `.` |
| ClassifierRouter.NameOfPlainFile | classifier/classifier/api/router.py:32 | a plain file name is its own name, also after a directory part |
| ClassifierRouter.Suffix | classifier/classifier/api/router.py:32 | `.suffix` is empty or a proper ending of the name that starts with its only dot |
| ClassifierRouter.SuffixOf | classifier/classifier/api/router.py:32 | the suffix of `stem.rest` is `.rest` when the stem is non-empty and `rest` has no dot |
| ClassifierRouter.IsValidExtension | classifier/classifier/api/router.py:30-33 | `is_valid_extension`: the lower-cased suffix of the file name's last component is an allowed extension (characterised by the rows below) |
| ClassifierRouter.AllowedExtensionIff | classifier/classifier/api/router.py:33 | an extension is allowed iff it is one of `.jpg .jpeg .png .webp .heic .heif` |
| ClassifierRouter.ExtensionOfPlainFile | classifier/classifier/api/router.py:30-33 | a plain file name is valid iff its lower-cased final suffix is one of the six extensions |
| ClassifierRouter.UpperCaseExtensionAccepted | classifier/classifier/api/router.py:30-33 | `A.JPG` is accepted |
| ClassifierRouter.DoubleExtensionRejected | classifier/classifier/api/router.py:30-33 | any plain name ending `.jpg.exe` is refused |
| ClassifierRouter.DotFileRejected | classifier/classifier/api/router.py:30-33 | `.jpg` is refused: it has no suffix |
| ClassifierRouter.SupportedFormatsListed | classifier/classifier/api/router.py:51-55 | the 415 detail lists JPG, JPEG, PNG, WEBP, HEIC, HEIF in dictionary order |
| ClassifierRouter.Admission | classifier/classifier/api/router.py:49-59 | admitted iff the content type is allowed or the file name's extension is valid; else 415 with the detail, or 500 when there is no file name |
| ClassifierRouter.FormatPredictions | classifier/classifier/api/router.py:77-83 | count and order kept; each name is the display name of `class_name`; each confidence is scaled by 100 |
| ClassifierRouter.ServiceError | classifier/classifier/api/router.py:92-117 | an image-processing error is 400 and every other failure 500 |
| ClassifierRouter.ClassifyPlantAsWritten | classifier/classifier/api/router.py:61-119 | as written, every request fails; a request the classifier answers fails with 500 |
| ClassifierRouter.ClassifyPlant | classifier/classifier/api/router.py:36-119 | the admission error is passed on; 415 iff content type and extension both fail; 413 iff admitted and over 10 MiB (exactly 10 MiB passes); success iff admitted, within the limit and classified, returning the formatted predictions; 400 iff image processing failed; statuses only 400/413/415/500 |
| ClassifierRouter.AwaitedResultFails | classifier/classifier/api/router.py:75 | every request the corrected endpoint answers with predictions is a 500 as written |
| ClassifierRouter.AsWrittenAgreesOnFailures | classifier/classifier/api/router.py:92-117 | when the classifier fails, both versions answer alike |
| DiseaseInference.RunInference | disease/disease_app/services/inference_service.py:5-24 | exactly three entries, or the `topk` error when there are fewer than three classes; entries follow a valid top-3 index list, best first, named by the display name of `CLASS_NAMES[idx]` with that index's probability |
| DiseasePredict.Health | disease/disease_app/api/predict.py:17-41 | healthy with `model_loaded` true iff the model exists, otherwise unhealthy with "Model is not loaded"; always service `disease` |
| DiseasePredict.AcceptedName | disease/disease_app/api/predict.py:57-58 | the lower-cased name ends in `.jpg`, `.jpeg` or `.png` (used by `FilenameCheck`) |
| DiseasePredict.AcceptedNameIgnoresCase | disease/disease_app/api/predict.py:57-58 | the name check ignores case: the upper-cased name is accepted exactly when the name is |
| DiseasePredict.FilenameCheck | disease/disease_app/api/predict.py:49-62 | a missing or empty file name is 400; otherwise 415 iff the lower-cased name does not end in `.jpg`, `.jpeg` or `.png` |
| DiseasePredict.PredictPlantDisease | disease/disease_app/api/predict.py:44-101 | as written: the file-name errors reach the client; 400 iff the name is missing; an empty body is 500; success iff the name passes and the body and result are non-empty, echoing result and file name |
| DiseasePredict.PredictPlantDiseaseIntended | disease/disease_app/api/predict.py:44-101 | as intended: an empty body is 400, an empty result 422, and 500 iff inference raised |
| DiseasePredict.EmptyUploadAnswered500 | disease/disease_app/api/predict.py:67-71 | an empty `photo.jpg` is answered 500 as written and 400 as intended |
| DiseasePredict.EmptyResultAnswered500 | disease/disease_app/api/predict.py:79-83 | an empty inference result is answered 500 as written and 422 as intended |
| DiseasePredict.SameOutsideTheTry | disease/disease_app/api/predict.py:64-101 | both versions succeed on the same requests with the same answer and differ at most by a status turned into 500 |
| DiseasePredict.UpperCaseNameAccepted | disease/disease_app/api/predict.py:57-58 | `LEAF.JPG` passes the name check |
| CivilCalendar.MonthLength | src/main.ts:97 | months have 28..31 days; February has 29 iff the year is a leap year |
| CivilCalendar.MonthStep | src/main.ts:97 | each month starts where the previous one ends |
| CivilCalendar.MonthsFillYear | src/main.ts:97 | the twelve months fill the year exactly |
| CivilCalendar.NextYear | src/main.ts:97 | consecutive years start one year length apart |
| CivilCalendar.NextDayNumber | src/main.ts:49 | the next calendar day has the next day number, across month and year ends |
| CivilCalendar.PrevDayNumber | src/main.ts:74 | the previous calendar day has the previous day number |
| CivilCalendar.CivilFromDays | src/main.ts:21-23 | every day number has a valid year, month and day of month |
| CivilCalendar.CivilFromDaysInverse | src/main.ts:21-23 | that date's day number is the day number it came from |
| CivilCalendar.CivilRoundTrip | src/main.ts:21-23 | a valid date is read back from its day number |
| CivilCalendar.SameDayNumberSameYear | src/main.ts:21-23 | two valid dates with the same day number are in the same year |
| CivilCalendar.SameDayNumberSameDate | src/main.ts:21-23 | two valid dates of one year with the same day number are the same date |
| CivilCalendar.GetDay | src/main.ts:57 | `getDay()` lies in 0..6 |
| CivilCalendar.GetDayPeriodic | src/main.ts:73-80 | a whole number of weeks later is the same weekday |
| CivilCalendar.MakeDay | src/main.ts:49 | ECMAScript's MakeDay on whole days: a month outside 0..11 carries into the year, a day outside the month into the neighbouring months (properties in the rows below) |
| CivilCalendar.MakeDayValid | src/main.ts:49 | MakeDay of an existing date is the day with exactly that year, month and day |
| CivilCalendar.MakeDayParts | src/main.ts:49 | the getters read back the year, month and day of such a day |
| CivilCalendar.MakeDayCarries | src/main.ts:49 | days carry linearly into the following months, and twelve months make a year |
| CivilCalendar.MakeDayNormal | src/main.ts:120 | a month outside 0..11 is the same as its carried year and month |
| CivilCalendar.MakeDayInRange | src/main.ts:49 | with the month in range nothing carries: MakeDay is the date's day number |
| CivilCalendar.SetDate | src/main.ts:40 | `setDate(d)` moves by `d - getDate()` days |
| CivilCalendar.SetMonthLands | src/main.ts:120 | when the month that `setMonth(t)` carries to has the day of month, the result is that day of that month, in the year `t` carries to |
| CivilCalendar.SetMonthNormal | src/main.ts:120 | `setMonth(t)` is MakeDay of the year carried by `t / 12`, month `t % 12` and the same day of month |
| CivilCalendar.ConstructorYear | src/main.ts:95 | the year the `Date` constructor reads is the given one or 1900 more, and never a year 0..99 |
| CivilCalendar.NewDate | src/main.ts:95 | `new Date(y, m, d)` is MakeDay of `1900 + y` for a year 0..99 and of `y` otherwise |
| CivilCalendar.NewDateValid | src/main.ts:103 | `new Date(y, m, d)` of a day that exists in the year the constructor reads has that year, month and day |
| CivilCalendar.NewDateParts | src/main.ts:95-103 | the getters read back the constructor's year, the month and the day; a year 0..99 reads back as `1900 + y` |
| CivilCalendar.MakeDayZeroOfNextMonth | src/main.ts:97 | day 0 of the next month is the last day of this one, December included |
| CivilCalendar.DayZeroOfNextMonth | src/main.ts:97 | `new Date(y, m + 1, 0)` is `new Date(y, m, length of month m)`, the length taken in the year the constructor reads |
| CivilCalendar.LastDayOfMonth | src/main.ts:97 | `new Date(y, m + 1, 0)` is the last day of month `m` of the year the constructor reads, so its `getDate()` is that month's length |
| FrontEnd.IsSameDay | src/main.ts:20-24 | `isSameDay` holds iff the two days are the same day |
| FrontEnd.MondayIndex | src/main.ts:57 | `(getDay() + 6) % 7` lies in 0..6; it is 0 exactly on Mondays and 6 exactly on Sundays |
| FrontEnd.MondayIndexShift | src/main.ts:57 | `k` days later the Monday-based index has moved on by `k`, modulo 7 |
| FrontEnd.MondayOfWeek | src/main.ts:39-40 | going back by the index lands on a Monday at most six days earlier |
| FrontEnd.WeekStart | src/main.ts:39-40 | the week strip starts on a Monday at most six days before today, index-many days back |
| FrontEnd.RenderWeek | src/main.ts:42-71 | seven cells for seven consecutive days, each with its weekday label, day of month, today mark and task mark; from a Monday the labels run ПН..ВС; the month label is the start's month |
| FrontEnd.WeekLabelsFromMonday | src/main.ts:57 | from a Monday, the seven week cells are labelled ПН..ВС in order |
| FrontEnd.LeadingBlanks | src/main.ts:95-96 | the number of leading blanks lies in 0..6 |
| FrontEnd.RenderMonth | src/main.ts:90-117 | the grid is the leading blanks, then one cell per day of the month labelled 1..length, marked exactly when it is today or the selected day. The month and its cells' days are made by `new Date(year, month, day)`, so for a year 0..99 the grid is that month of 19xx and the length is taken there |
| FrontEnd.MonthGrid | src/main.ts:95-115 | the grid of a given year and month: `startDay` blanks, then one cell per day 1..length, each marked exactly when that date is today or the selected day |
| FrontEnd.DaysInMonth | src/main.ts:97 | `new Date(year, month + 1, 0).getDate()` is the length of the month (of 19xx for a year 0..99) |
| FrontEnd.GridColumns | src/main.ts:95-106 | every day of the month sits in the column of its weekday |
| FrontEnd.ShiftMonthAsWrittenAgrees | src/main.ts:119-128 | the shift as written, `setMonth(getMonth() ± 1)`, equals the corrected shift wherever the target month has the selected day |
| FrontEnd.PreviousMonthFromMarch31 | src/main.ts:119-121 | as written, "previous month" from 31 March stays in March of the same year |
| FrontEnd.ShiftMonthLands | src/main.ts:119-128 | the corrected shift reaches the target month and year and keeps the day, clamped to the month's length |
| FrontEnd.ShiftMonthReachesNeighbour | src/main.ts:119-128 | the corrected shift by ±1 always lands in the neighbouring month |
| FrontEnd.EventText | src/main.ts:133 | the event text is the type, `": "`, then the plant |
| FrontEnd.ChangedValue | src/main.ts:181 | `max(0, value + delta)`: never negative and never below `value + delta` |
| FrontEnd.Page.constructor | src/main.ts:39-40 | start-up: the strip starts on this week's Monday, today is selected, no plants |
| FrontEnd.Page.PrevWeek | src/main.ts:73-76 | the strip moves back exactly 7 days and still starts on a Monday; nothing else changes |
| FrontEnd.Page.NextWeek | src/main.ts:77-80 | the strip moves on exactly 7 days and still starts on a Monday; nothing else changes |
| FrontEnd.Page.SelectDate | src/main.ts:109-112 | a click selects exactly that day |
| FrontEnd.Page.ShiftSelectedMonth | src/main.ts:119-128 | the selected day moves to the neighbouring month; nothing else changes |
| FrontEnd.Page.AddPlantByName | src/main.ts:245-256 | a cancelled or empty name changes nothing; otherwise exactly one plant with the placeholder photo is appended |
| FrontEnd.Page.AddPlantByPhoto | src/main.ts:264-283 | as by name, with the data URL as the photo |
| FrontEnd.Page.ChangeValue | src/main.ts:178-183 | that counter becomes `max(0, old + delta)`; the other counters are unchanged |

## Left out

- Neural networks, image decoding and preprocessing, softmax, weight and model loading. Scores and probabilities are inputs.
- HMAC-SHA256, hex and UTF-8 encoding, `parse_qsl` with its URL decoding, `json.loads`, `int()` and the JWT library are uninterpreted. Their behaviour beyond the outcomes listed in `Primitives` is not modelled.
- `hmac.compare_digest` raising on non-ASCII input, and `int()` raising on a non-integer `auth_date`, are modelled as uncaught exceptions (500). Their messages are not modelled.
- Logging, the `processed_at` field (None while the logger has no handler), response detail texts other than the 415 list, and HTTP framework behaviour such as FastAPI's own 422 for a malformed body.
- `round(..., 2)` and `round(..., 4)` of confidences: confidences are exact reals.
- `TelegramDataValidator.CreateJwtToken`: the encoding is an uninterpreted function, so only its claim set (`SessionClaims`) has a contract. The token lifetime uses the parameter `now` for both `time.time()` and `datetime.utcnow()`.
- The ORM, the database session and SQL result order. The store returns records in insertion order.
- The `Task(date=..., text=...)` keywords of `add_task` do not match the ORM model's field names; the store is the intended sequence of records.
- The plant service wrapper, which turns every exception into `ClassificationError`, is not part of this model. The classifier call is an abstract `ServiceOutcome`.
- `file.read(MAX_FILE_SIZE + 1)`: the body is taken whole. Reading at most one byte more than the limit gives the same length comparison.
- `readlines()` on a text stream also splits on `\r` and `\r\n` (universal newlines); the model splits on `\n` only.
- `PyStr.Lower`, `PyStr.Upper`, `PyStr.Title`: case mapping covers ASCII letters only. Characters outside ASCII are treated as uncased and left unchanged. Whitespace (`PyStr.IsSpace`) follows Python's full list, non-ASCII spaces included.
- JavaScript `Date`: time of day, time zones, daylight saving time and the ±8.64e15 ms range are not modelled; a date is a whole local day. `formatDate` (UTC ISO string) is not modelled, because it depends on the time zone.
- DOM, `fetch`, `localStorage`, `prompt`, `alert` and `FileReader`. Their results enter as parameters: the tasks-present test of `renderWeek`, the prompted name, the data URL.
- `navigateTo`, `renderPlants`, `updatePlantOptions`, `updateSelectedDateLabel`, the placeholder recognition buttons and the year in the month label: they only write text and classes into the page.
- The water calculator (`setupWaterCalculator`): floating-point multipliers and `Math.round`.
- `FrontEnd.Page.ChangeValue`: `parseInt` of non-numeric counter text (NaN) is not modelled; counters hold integers.
- `FrontEnd.Page.ShiftSelectedMonth`: it uses the corrected month shift. The shift as written is `FrontEnd.ShiftMonthAsWritten` (see Findings).
- The older duplicate disease service (`disease/app`) and the wiring files.

## Findings

| source | as written | input that shows it | evidently intended | confidence | as-written member | corrected member |
|---|---|---|---|---|---|---|
| classifier/classifier/api/router.py:75 | `await plant_service.classify_plant(contents)` awaits the list returned by a synchronous method. The TypeError is caught by `except Exception` and becomes a 500. | any admitted upload of at most 10 MiB that the classifier handles | the predictions are formatted and returned | not executed | ClassifierRouter.ClassifyPlantAsWritten | ClassifierRouter.ClassifyPlant |
| disease/disease_app/api/predict.py:67-71, 79-83 | the 400 for an empty file and the 422 for an empty result are raised inside the `try`, whose `except Exception` (lines 97-101) turns them into 500 | an empty body named `photo.jpg`; or a non-empty body for which inference returns `[]` | 400 and 422 reach the client | not executed | DiseasePredict.PredictPlantDisease | DiseasePredict.PredictPlantDiseaseIntended |
| src/main.ts:120, 125 | `setMonth(getMonth() ± 1)` keeps the day of month, so a day the target month lacks carries into the month after it | "previous month" with 31 March selected gives 2 or 3 March | the grid moves to February | not executed | FrontEnd.PreviousMonthFromMarch31 | FrontEnd.ShiftMonthLands |
