# dbb-blocks core, modelled in Dafny

This project models the core of dbb-blocks. dbb-blocks is a collection of
blocks for a visual Discord-bot builder. A block is an object with a list of
options and a `code(cache)` function. The function reads its inputs and
options through the host. It then stores output values and fires an output
action. The modelled blocks are:

- **Create Date** (`blocks/create-date.ts`) builds a JavaScript `Date`. It
  starts from the current time, from a "beginning" date made of numeric
  fields, or from a custom date. It then shifts the date by years, months,
  days, hours, minutes, seconds and milliseconds. Months are added by an
  `addMonths` helper that clamps to the end of the target month.
- **Set Operation** (`blocks/set-operation.ts`, and the older
  `blocks/set-operation.js`) takes two iterables or objects and validates
  them. It turns each into a set (its elements, its keys or its values), then
  computes their union, intersection, difference or symmetric difference. It
  can sort the result alphabetically or in reverse, and it outputs a `Set` or
  an array. Each error case throws its own message.
- **Check Channel Name** (`dist/check-channel-name.js`) decides whether a
  string is a valid Discord channel name for a channel type. Text channels
  have extra character rules.
- **Is Number** (`blocks/is-number.ts`) fires `true_action` when the input is
  a string of digits, optionally padded with white space, or a non-negative
  number. Otherwise it fires `false_action`.
- **DBBMock** (`lib/DBBMock.ts`) is the host used to run a block. It merges
  the block's option defaults with the caller's options. It gives the block a
  cache of inputs, options and outputs, and records what the block stores.

The JavaScript values the blocks see form one datatype, `JsValue.Value`:

- undefined, null, booleans and integers;
- strings, arrays, `Set`s and other iterables;
- plain objects with ordered properties;
- `Date`s.

The JavaScript semantics the blocks rely on are written out as functions:

- `Date` fields and setters, on a proleptic Gregorian calendar (`Calendar`);
- `Date.prototype.toString` and `toISOString` (`DateFormat`);
- `String.prototype.trim` and `toLowerCase`, `parseInt`, number-to-string,
  UTF-16 length and `localeCompare` (`JsString`);
- `Set` construction and the set operations, as duplicate-free sequences in
  insertion order (`JsSet`);
- the array sort (`Sorting`).

The host is a class. `Host.Cache` holds the `inputs`, `options` and
`outputs` maps, and the `Host.DBBMock` methods update `outputs` in place.
Each block's `code` is a method. Its contract ties the new outputs to a pure
function of the inputs and options, and the lemmas state the block's
properties about that function.

## Model

| member | source | states |
|---|---|---|
| Host.Defaults | lib/DBBMock.ts:22-30 | the default map has exactly the ids of the block's options as keys |
| Host.DefaultsOfOption | lib/DBBMock.ts:22-30 | an option's default is the first key of a SELECT option and undefined for any other option, unless a later option reuses its id |
| Host.MergeOptions | lib/DBBMock.ts:32-39 | the merged options have the keys of both maps; a caller's option overrides the default and a default fills every other key |
| Host.Cache.constructor | lib/DBBMock.ts:32-39 | a run starts with the given inputs and options and with no outputs |
| Host.DBBMock.GetInputValue | lib/DBBMock.ts:4-6 | reading an input gives its value, or undefined when it is absent (a definition: the lookup itself) |
| Host.DBBMock.GetOptionValue | lib/DBBMock.ts:7-9 | reading an option gives its value, or undefined when it is absent (a definition: the lookup itself) |
| Host.DBBMock.StoreOutputValue | lib/DBBMock.ts:10-12 | storing sets exactly that output key and leaves every other output as it was |
| Host.DBBMock.RunNextBlock | lib/DBBMock.ts:13-15 | firing an action records that action as called and changes no other output |
| JsValue.Get | lib/DBBMock.ts:4-9 | a map lookup gives the stored value for a present key and undefined for an absent one (a definition of the JavaScript primitive; the properties are proved about it elsewhere) |
| JsValue.Iterate | blocks/set-operation.ts:10-12 | iterating a string gives its characters one by one; iterating any other iterable gives its elements in order (a definition of the JavaScript primitive; the properties are proved about it elsewhere) |
| JsValue.ObjectKeys | blocks/set-operation.ts:16-18 | `Object.keys` gives the property names in order; a Date has none (a definition of the JavaScript primitive; the properties are proved about it elsewhere) |
| JsValue.ObjectValues | blocks/set-operation.ts:19-21 | `Object.values` gives the property values in order; a Date has none (a definition of the JavaScript primitive; the properties are proved about it elsewhere) |
| JsValue.ToString | blocks/create-date.ts:132-139 | string conversion: a string is itself, a number its decimal form, undefined and the booleans their names (a definition of the JavaScript primitive; the properties are proved about it elsewhere) |
| JsSet.Dedup | blocks/set-operation.ts:10-12 | `new Set(iterable)` keeps each distinct element once, at the position of its first occurrence, and keeps exactly the iterable's members |
| JsSet.DedupDistinct | blocks/set-operation.ts:10-12 | a sequence that is already duplicate-free is its own set |
| JsSet.Union | blocks/set-operation.ts:34-35 | the union has the members of either input, with no repeats, and starts with the first input in its own order |
| JsSet.UnionIdentity | blocks/set-operation.ts:34-35 | the union with the empty set or with itself gives the set back unchanged |
| JsSet.Intersection | blocks/set-operation.ts:36-37 | the intersection has exactly the members of both inputs, with no repeats |
| JsSet.Difference | blocks/set-operation.ts:38-39 | the difference has exactly the members of the first input that are not in the second |
| JsSet.SymmetricDifference | blocks/set-operation.ts:40-41 | the symmetric difference has exactly the members of one input but not the other |
| JsString.Trim | dist/check-channel-name.js:25-26 | the result of `trim` neither starts nor ends with white space |
| JsString.TrimIsInfix | dist/check-channel-name.js:25-26 | `trim` removes only leading and trailing white space: the input is white space, the result, then white space |
| JsString.TrimPadded | blocks/is-number.ts:3-8 | padding a string with white space on either side does not change its trimmed form |
| JsString.TrimUnpadded | blocks/is-number.ts:3-8 | a string that has no white space at either end is its own trimmed form |
| JsString.CharacterInTrim | dist/check-channel-name.js:25-26 | every character that is not white space survives `trim` |
| JsString.Utf16Length | dist/check-channel-name.js:17-19 | the `length` of a string is at least its count of characters and at most twice that; it equals that count when every character is in the Basic Multilingual Plane |
| JsString.Utf16LengthAppend | dist/check-channel-name.js:17-19 | the `length` of a concatenation is the sum of the lengths |
| JsString.LowerChar | dist/check-channel-name.js:7-9 | lower-casing a capital letter shifts it by 32, leaves every other character alone, and never gives a capital letter |
| JsString.ToLower | dist/check-channel-name.js:7-9 | `toLowerCase` lower-cases each character in place and keeps the length |
| JsString.ToLowerFixed | dist/check-channel-name.js:7-9 | a string equals its lower-cased form exactly when it has no capital letter |
| JsString.DecimalStringValue | blocks/create-date.ts:132-139 | the decimal form of a natural number reads back as that number |
| JsString.NumberToString | blocks/create-date.ts:132-139 | an integer below 1e21 in magnitude converts to its decimal form, with a leading minus sign when it is negative (a definition of the JavaScript primitive; the properties are proved about it elsewhere) |
| JsString.ParseIntDecimal | blocks/create-date.ts:132-139 | `parseInt` skips leading white space and reads the longest run of decimal digits, ignoring what follows |
| JsString.ParseIntAfterSpace | blocks/create-date.ts:132-139 | leading white space does not change what `parseInt` reads |
| JsString.ParseIntOfNumber | blocks/create-date.ts:132-139 | `parseInt` of an integer's string form gives the integer back |
| JsString.ParseIntNaN | blocks/create-date.ts:132-139 | `parseInt` of text whose first character after white space is not a digit or sign is NaN |
| JsString.LocaleCompareFlip | blocks/set-operation.js:35-41 | comparing two strings the other way round gives the opposite sign |
| JsString.LocaleCompareZero | blocks/set-operation.js:35-41 | two strings compare equal exactly when they are the same string |
| JsString.LocaleCompareTransitive | blocks/set-operation.js:35-41 | the string comparison is transitive |
| Sorting.SortBy | blocks/set-operation.ts:66-78 | sorting gives a permutation of its input |
| Sorting.SortBySorted | blocks/set-operation.ts:66-78 | sorting with a comparator that flips its sign when its arguments are swapped gives a sorted sequence |
| Sorting.SortedUnique | blocks/set-operation.ts:66-78 | under a total order there is only one sorted permutation of a sequence |
| Sorting.SortByIsTheOrderedPermutation | blocks/set-operation.ts:66-78 | under a total order, sorting gives exactly the sorted permutation of the input |
| Sorting.ArraySort | blocks/set-operation.ts:66-78 | `Array.prototype.sort` permutes the array, sorts the defined elements and moves every undefined element to the end |
| Sorting.ArraySortDefined | blocks/set-operation.ts:66-78 | with no undefined element, the array sort is the comparator sort |
| SetOperation.ValidateInput | blocks/set-operation.ts:3-7 | an input is refused exactly when it is a string, undefined or null, with the message that names the input |
| SetOperation.ProcessInput | blocks/set-operation.ts:9-28 | an iterable becomes the set of its elements, and an object the set of its keys or its values; an unknown process method for an object is an error; a boolean or a number is an unknown input, while undefined and null throw the TypeError of reading `Symbol.iterator` on a nullish value; every result is duplicate-free |
| SetOperation.OneProperty | blocks/set-operation.ts:14-25 | an object with one property gives its key under "keys" and its value under "values" |
| SetOperation.ExecuteSetOperation | blocks/set-operation.ts:30-47 | each of the four operations gives the set with exactly the members the operation defines, and the union is the first set followed by the rest; any other operation name is an error naming it |
| SetOperation.CompareFlips | blocks/set-operation.ts:49-64 | the comparator gives the opposite sign when its arguments are swapped |
| SetOperation.CompareTotalOrder | blocks/set-operation.ts:49-64 | on all-string or all-number inputs the comparator and its reverse are transitive and give zero only for equal values |
| SetOperation.ExecuteSort | blocks/set-operation.ts:66-78 | "no" keeps the set as it is; "alpha" and "alpharev" give an array that permutes the set, sorted ascending or descending, with undefined elements last; any other sort method is an error naming it |
| SetOperation.SortIsTheOrderedPermutation | blocks/set-operation.ts:66-78 | on all-string or all-number inputs, "alpha" and "alpharev" give exactly the ascending or descending permutation of the set |
| SetOperation.SortExample | test/set-operation.test.ts:121-129 | sorting b, c, a with "alpha" gives a, b, c |
| SetOperation.ReverseSortExample | test/set-operation.test.ts:130-138 | sorting a, b, c with "alpharev" gives c, b, a |
| SetOperation.ConvertOutput | blocks/set-operation.ts:80-96 | "set" returns the value unchanged, whether it is a set or an already sorted array; "array" gives an array of the same elements in the same order; any other type is an error naming it |
| SetOperation.ValidationComesFirst | blocks/set-operation.ts:194-198 | a refused first input fails with the first input's message before anything else is looked at, and a refused second input fails with its own message |
| SetOperation.ArraysProcessed | blocks/set-operation.ts:10-12 | two duplicate-free arrays pass validation and are processed into themselves, whatever the process method |
| SetOperation.EvaluateSteps | blocks/set-operation.ts:189-210 | when every step succeeds, the result is validate, process, operate, sort and convert, in that order |
| SetOperation.FirstProcessingError | blocks/set-operation.ts:197-198 | when processing the first input fails, that error is what the block throws |
| SetOperation.Code | blocks/set-operation.ts:189-210 | on success the block stores the result under "result" and fires "action"; on an error it throws the pipeline's error and stores nothing |
| SetOperation.OptionDefaults | blocks/set-operation.ts:142-187 | the defaults are union, keys, no sorting and a Set as output |
| SetOperation.RunOptionsOf | lib/DBBMock.ts:22-39 | each option of a run is the caller's value if one is given, else the option's first choice |
| SetOperation.RunBlock | lib/DBBMock.ts:17-45 | running the block stores the pipeline's result and the action, or throws and leaves the outputs empty |
| SetOperation.IterableUnionWithItself | test/set-operation.test.ts:28-44 | the union of an iterable with itself, under the defaults, is `new Set(iterable)` |
| SetOperation.UnionKeepsFirstInputOrder | blocks/set-operation.ts:34-35 | an unsorted union output as an array starts with the first input in its own order |
| SetOperation.UnionArrayExample | test/set-operation.test.ts:169-177 | the union of [b, c] and [b, a] output as an array is [b, c, a] |
| SetOperation.SetMethodsExample | test/set-operation.test.ts:84-98 | on [a, b] and [b, c], the four operations give {a, b, c}, {b}, {a} and {a, c} |
| SetOperation.DefaultRun | test/set-operation.test.ts:84-98 | with only the operation chosen, a run on two arrays outputs the operation's result as a Set |
| SetOperation.ProcessMethodRun | test/set-operation.test.ts:46-64 | with the keys or values method chosen, a union run outputs the union of the processed inputs as a Set |
| SetOperation.InvalidProcessMethodRun | test/set-operation.test.ts:67-75 | an object input with an unknown process method throws the "object process method" error |
| SetOperation.UnknownInputExample | test/set-operation.test.ts:77-81 | two numbers as inputs throw the "unknown input" error for the first one |
| SetOperationLegacy.ProcessInput | blocks/set-operation.js:7-28 | a string, undefined or null is refused; an iterable or an object is processed as in the current block; a boolean or a number falls through to undefined |
| SetOperationLegacy.ProcessInputAgrees | blocks/set-operation.js:7-28 | on every input both versions accept, the older version gives the same set as the current one, and undefined where the current one reports an unknown input |
| SetOperationLegacy.ExecuteSetOperation | blocks/set-operation.js:47-60 | an unknown operation is an error naming it; an undefined operand of a known operation is a TypeError; otherwise the result is that of the current block |
| SetOperationLegacy.LocaleOrderSignFlips | blocks/set-operation.js:35-41 | the `localeCompare` comparators flip their sign when their arguments are swapped |
| SetOperationLegacy.ExecuteSort | blocks/set-operation.js:30-45 | "no" keeps the set; "alpha" and "alpharev" sort ascending or descending by `localeCompare`, undefined last, and throw a TypeError when the comparator is called on a value that is not a string; any other sort method is an error |
| SetOperationLegacy.NumbersAreNotCompared | blocks/set-operation.js:35-41 | sorting two numbers throws the TypeError, while a single number is never compared and sorts fine |
| SetOperationLegacy.SortAgreesOnStrings | blocks/set-operation.js:30-45 | on sets of strings, both versions of the sort give the same result |
| SetOperationLegacy.ValidationComesFirst | blocks/set-operation.js:166-187 | a refused "input-1" fails with the "Input 1" message and then a refused "input-2" with the "Input 2" message, so `processInput`'s own refusal is never reached |
| SetOperationLegacy.NumberInput | blocks/set-operation.js:47-60 | a number as the first input, with a number or an array as the second, gives the TypeError for any known operation, and the invalid-operation error otherwise |
| SetOperationLegacy.Code | blocks/set-operation.js:166-187 | on success the block stores the result and fires "action"; on an error it stores nothing |
| SetOperationLegacy.RunBlock | lib/DBBMock.ts:17-45 | running the older block stores its result and the action, or throws and leaves the outputs empty |
| CheckChannelName.InvalidCharactersAreSymbols | dist/check-channel-name.js:3 | the forbidden characters are exactly the space and the ASCII punctuation marks other than `-` and `_` |
| CheckChannelName.ContainsInvalidCharacterShared | dist/check-channel-name.js:4-6 | a string contains a forbidden character exactly when it shares a character with the forbidden list |
| CheckChannelName.IsLowerCase | dist/check-channel-name.js:7-9 | a string is lower case exactly when it has no capital letter |
| CheckChannelName.ValidateInput | dist/check-channel-name.js:10-34 | a name that is not a string, is empty, or is longer than 100 UTF-16 units is invalid; a thread, category or voice name is then valid; a text name is valid exactly when its trimmed form has no forbidden character, it is lower case and it does not start with a dash; any other channel type is an error naming it |
| CheckChannelName.NonTextTypesAcceptAnyLength | dist/check-channel-name.js:20-24 | for a thread, category or voice channel only the length counts |
| CheckChannelName.NonStringInvalid | dist/check-channel-name.js:11-13 | a name that is not a string is invalid for every channel type |
| CheckChannelName.NoForbiddenCharacter | dist/check-channel-name.js:25-30 | a name without symbols or spaces passes the character rule |
| CheckChannelName.PaddingIgnoredByCharacterRule | dist/check-channel-name.js:25-30 | white space around a name does not change the character rule, and adds its own length to the length rule |
| CheckChannelName.TextNameAccepted | dist/check-channel-name.js:25-30 | a text name without symbols, spaces or capitals that does not start with a dash passes the text rules |
| CheckChannelName.ForbiddenCharacterRejected | dist/check-channel-name.js:25-30 | a text name holding any forbidden character other than the space fails the text rules |
| CheckChannelName.LeadingSpaceHidesDash | dist/check-channel-name.js:25-30 | a dash behind leading white space escapes the dash rule, because that rule looks at the untrimmed name |
| CheckChannelName.LeadingSpaceDashExample | dist/check-channel-name.js:25-30 | " -a" is a valid text channel name |
| CheckChannelName.Code | dist/check-channel-name.js:81-90 | the block fires "action_true" or "action_false" as the name is valid, and throws with no output on an unknown channel type |
| CheckChannelName.DefaultIsText | dist/check-channel-name.js:53-66 | the channel type defaults to text |
| CheckChannelName.RunBlock | lib/DBBMock.ts:17-45 | running the block fires exactly one of the two actions, or throws with no output |
| CheckChannelName.HundredLettersValid | test/check-channel-name.test.ts:8 | 100 lower-case letters are a valid text channel name |
| CheckChannelName.HundredOneSpacesInvalid | test/check-channel-name.test.ts:9 | 101 spaces are too long a name |
| CheckChannelName.SymbolInvalid | test/check-channel-name.test.ts:10 | "!" is not a valid text channel name |
| CheckChannelName.UpperCaseInvalid | test/check-channel-name.test.ts:11 | "AA" is not a valid text channel name |
| CheckChannelName.AccentedCapitalInvalid | test/check-channel-name.test.ts:12 | a capital E with an acute accent is not a valid text channel name |
| CheckChannelName.DashInvalid | test/check-channel-name.test.ts:13 | "-" is not a valid text channel name |
| CheckChannelName.EmojiValid | test/check-channel-name.test.ts:14 | a smiling-face emoji, two UTF-16 units long, is a valid text channel name |
| CheckChannelName.SpacesAcceptedOutsideText | test/check-channel-name.test.ts:15-18 | symbols and spaces are accepted for voice, thread and category channels |
| IsNumberBlock.IsNumber | blocks/is-number.ts:3-8 | only a string or a number can pass, and only one whose trimmed string form is not empty |
| IsNumberBlock.StringIsNumber | blocks/is-number.ts:3-8 | a string passes exactly when it is a non-empty run of digits with white space on either side |
| IsNumberBlock.NumberIsNumber | blocks/is-number.ts:3-8 | a number below 1e21 passes exactly when it is not negative |
| IsNumberBlock.NumberCharacters | blocks/is-number.ts:3-8 | every character of a passing string is a digit or white space |
| IsNumberBlock.NonDigitRejected | blocks/is-number.ts:3-8 | a string holding any character that is neither a digit nor white space fails |
| IsNumberBlock.PaddingAccepted | blocks/is-number.ts:3-8 | digits with any white space around them pass |
| IsNumberBlock.Code | blocks/is-number.ts:50-57 | the block fires "true_action" or "false_action" as the input is a number, and changes nothing else |
| IsNumberBlock.RunBlock | lib/DBBMock.ts:17-45 | running the block fires exactly the one action |
| IsNumberBlock.DigitsAccepted | test/is-number.test.ts:8 | "1235" passes |
| IsNumberBlock.LeadingSpaceAccepted | test/is-number.test.ts:9 | " 1235" passes |
| IsNumberBlock.SurroundingSpaceAccepted | test/is-number.test.ts:10 | " 1235 " passes |
| IsNumberBlock.TrailingSpaceAccepted | test/is-number.test.ts:11 | "1235 " passes |
| IsNumberBlock.NumbersAndSigns | test/is-number.test.ts:12-23 | 1234 passes and -1234 fails |
| IsNumberBlock.MinusRejected | test/is-number.test.ts:18 | "-1235" fails |
| IsNumberBlock.DecimalPointRejected | test/is-number.test.ts:19 | "12.35" fails |
| IsNumberBlock.DecimalCommaRejected | test/is-number.test.ts:20 | "12,35" fails |
| IsNumberBlock.ThousandsCommaRejected | test/is-number.test.ts:21 | "1,235" fails |
| IsNumberBlock.ThousandsPointRejected | test/is-number.test.ts:22 | "1.235" fails |
| IsNumberBlock.LettersRejected | test/is-number.test.ts:24 | "aaaa" fails |
| IsNumberBlock.OtherTypesRejected | test/is-number.test.ts:25-28 | false, true, null and undefined fail |
| Calendar.NormalizeDay | blocks/create-date.ts:173 | a day number outside its month rolls over into a valid date with the same day count |
| Calendar.MakeDate | blocks/create-date.ts:152-160 | building a date from fields that may overflow gives the date whose time value is the fields' day count and time of day |
| Calendar.MakeDateKeepsValid | blocks/create-date.ts:152-160 | building a date from a valid date's own fields gives that date |
| Calendar.MakeDateDayZero | blocks/create-date.ts:10 | day 0 of a month is the last day of the month before |
| Calendar.SetMonthDayZero | blocks/create-date.ts:10 | `setMonth(m, 0)` gives the last day of the month before month m, year carried |
| Calendar.DateOf | blocks/create-date.ts:166 | every time value is the time value of some date |
| Calendar.DateOfTimeValue | blocks/create-date.ts:166 | a date is the date of its own time value |
| Calendar.TimeValueInjective | blocks/create-date.ts:166 | two dates with the same time value are the same date |
| Calendar.SetDateShift | blocks/create-date.ts:173 | adding k to the day of the month moves the time value by k days |
| Calendar.SetHoursShift | blocks/create-date.ts:174 | adding k to the hours moves the time value by k hours |
| Calendar.SetMinutesShift | blocks/create-date.ts:175 | adding k to the minutes moves the time value by k minutes |
| Calendar.SetSecondsShift | blocks/create-date.ts:176 | adding k to the seconds moves the time value by k seconds |
| Calendar.SetMillisecondsShift | blocks/create-date.ts:177 | adding k to the milliseconds moves the time value by k milliseconds |
| DateFormat.DateToString | blocks/create-date.ts:132-139 | a Date's string form starts with its three-letter day of the week, a capital letter first, so `parseInt` of a Date is NaN |
| DateFormat.EpochDateString | blocks/create-date.ts:132-139 | the epoch's date part is "Thu Jan 01 1970" |
| DateFormat.ToIsoString | blocks/set-operation.ts:60-63 | the ISO form, which `JSON.stringify` gives a Date, ends with "Z" and is 24 characters long for years 0 to 9999, longer otherwise |
| DateFormat.IsoRoundTrip | blocks/set-operation.ts:60-63 | reading a Date's ISO form back gives the same Date |
| DateFormat.IsoInjective | blocks/set-operation.ts:60-63 | two Dates with the same ISO form are the same Date, so the fallback comparison tells different Dates apart |
| CreateDate.EndOfNewMonth | blocks/create-date.ts:7-10 | `endOfNewMonth` is the last day of the target month, with the time of day kept |
| CreateDate.LeapDayRollsOver | blocks/create-date.ts:20 | setting the year of a 29 February to a year that is not a leap year gives 1 March |
| CreateDate.AddMonthsAsWritten | blocks/create-date.ts:4-25 | `addMonths` as written moves to the target month, clamps the day to that month's length, and turns a 29 February into the 1st when the target year is not a leap year; the time of day is kept |
| CreateDate.AddMonths | blocks/create-date.ts:4-25 | `addMonths` as intended moves to the target month and keeps the day, clamped to that month's length, with the time of day kept |
| CreateDate.AddMonthsAsWrittenDiffers | blocks/create-date.ts:19-21 | the code as written and the intended `addMonths` differ exactly on a 29 February whose target month is in a year that is not a leap year and is longer than 29 days |
| CreateDate.AddMonthsLeapDayCounterexample | blocks/create-date.ts:19-21 | 29 February 2024 plus 13 months is 1 March 2025 as written and 29 March 2025 as intended |
| CreateDate.AddMonthsZero | blocks/create-date.ts:4-25 | adding no months gives the date back |
| CreateDate.AddMonthsAsWrittenZero | blocks/create-date.ts:4-25 | adding no months as written gives the date back |
| CreateDate.AddMonthsAssociative | blocks/create-date.ts:4-25 | for days up to the 28th, adding a months and then b months is adding a + b months |
| CreateDate.AddMonthsNotAssociative | blocks/create-date.ts:4-25 | from 31 January, one month twice ends on 28 March but two months at once on 31 March |
| CreateDate.ShiftTime | blocks/create-date.ts:173-177 | the day, hour, minute, second and millisecond setters together move the time value by the sum of the offsets |
| CreateDate.AfterYearStepAgrees | blocks/create-date.ts:172-177 | outside the leap-day case the date after the year step is the same as written and as intended |
| CreateDate.AddDateIntendedMonths | blocks/create-date.ts:165-180 | with only a month offset, the intended `addDate` is the intended `addMonths` |
| CreateDate.SetFullYearSame | blocks/create-date.ts:168 | setting a date's year to its own year changes nothing |
| CreateDate.AddDateSameYear | blocks/create-date.ts:165-180 | with no year offset, `addDate` is `addMonths` followed by the time shift |
| CreateDate.AddDateZero | blocks/create-date.ts:165-180 | `addDate` with no offsets gives the date back |
| CreateDate.AddDateOffsets | blocks/create-date.ts:173-177 | with no year or month offset, `addDate` moves the time value by the sum of the offsets |
| CreateDate.AddDateMonths | blocks/create-date.ts:172 | with only a month offset, `addDate` is `addMonths` as written |
| CreateDate.YearBackExample | test/create-date.test.ts:8 | 2024-12-02 minus one year is 2023-12-02 |
| CreateDate.MonthsBackAcrossYearExample | test/create-date.test.ts:12 | 2025-01-31 minus two months is 2024-11-30 |
| CreateDate.MonthsForwardAcrossYearExample | test/create-date.test.ts:15 | 2024-11-30 plus two months is 2025-01-30 |
| CreateDate.DayBackAcrossMonthExample | test/create-date.test.ts:19 | 2024-11-01 minus one day is 2024-10-31 |
| CreateDate.HourBackAcrossDayExample | test/create-date.test.ts:22 | 2024-12-02T00:00 minus one hour is 2024-12-01T23:00 |
| CreateDate.MillisecondBackAcrossSecondExample | test/create-date.test.ts:31 | 2024-12-02T23:00:01.000 minus one millisecond is 2024-12-02T23:00:00.999 |
| CreateDate.FixedDate | blocks/create-date.ts:143-163 | the fixed date has the given year, and the month, day and time that the fields give from 1900 on; a 29 February rolls to 1 March when the given year is not a leap year |
| CreateDate.FixedDateInRange | blocks/create-date.ts:143-163 | fields in range give exactly that date |
| CreateDate.FixedDateAllZero | blocks/create-date.ts:143-163 | all-zero fields give 31 December of the given year, because day 0 is the last day of the month before |
| CreateDate.FixedDateLeapDay | blocks/create-date.ts:152-161 | month 49, day 29 of 1900 is 29 February 1904, and setting the year to 2025 turns it into 1 March |
| CreateDate.ParsedIntIsParseInt | blocks/create-date.ts:132-139 | reading a numeric input is `parseInt` of its string form |
| CreateDate.ParsedIntOfNumber | blocks/create-date.ts:132-139 | an integer input reads as itself |
| CreateDate.ParsedIntOfString | blocks/create-date.ts:132-139 | a string input reads as the digits after its leading white space |
| CreateDate.TimeClip | blocks/create-date.ts:166 | a time value within 8.64e15 ms of the epoch gives the Date with that time value, and any other gives an Invalid Date |
| CreateDate.AddToInputNoDelta | blocks/create-date.ts:165-166 | a Date input with no offsets comes back as it is, valid or not |
| CreateDate.AddToInputNumber | blocks/create-date.ts:166 | a number input with no offsets is its time value, clipped |
| CreateDate.FieldsWithoutNumbers | blocks/create-date.ts:132-139 | missing numeric inputs read as zero offsets, with the month left as NaN |
| CreateDate.CurrentWithoutInputs | blocks/create-date.ts:200-202 | "current" with no inputs gives the clock's reading |
| CreateDate.BeginningWithoutInputs | blocks/create-date.ts:184-196 | "beginning" with no inputs gives 31 December of year 0 at midnight |
| CreateDate.BeginningExample | blocks/create-date.ts:184-196 | "beginning" with year 2024, month 1 and day 1 gives 1 January 2024 |
| CreateDate.CustomWithoutOffsets | blocks/create-date.ts:197-199 | "custom" with no offsets gives the custom date back, valid or not |
| CreateDate.CustomWithoutDate | blocks/create-date.ts:197-199 | "custom" without a custom date gives an Invalid Date |
| CreateDate.CustomTimeValue | blocks/create-date.ts:197-199 | a number as custom date is read as a time value: the Date with that time value, or an Invalid Date out of range |
| CreateDate.Code | blocks/create-date.ts:131-207 | the block stores the date for its inputs and options under "date" and fires "action" |
| CreateDate.RunBlock | lib/DBBMock.ts:17-45 | running the block outputs exactly the date and the action |

## Left out

- The calendar is UTC only. Local time zones, daylight saving and the zone offset are not modelled, so every "local" getter and setter is the UTC one.
- Calendar.SetDate: the `Date` setters (and SetHours, SetMinutes, SetSeconds, SetMilliseconds, SetMonth, SetFullYear) do not apply TimeClip, so a shift past ±8.64e15 ms stays a valid date in the model. In JavaScript it gives an Invalid Date.
- CreateDate.FixedDate: the `new Date(0, month, day, ...)` constructor does not apply TimeClip either. In JavaScript fields beyond ±8.64e15 ms give an Invalid Date, and `setFullYear` on it then starts from time value +0, giving 1 January of the requested year (section 21.4.4.21 of ECMA-262); the model keeps the normalised date.
- CreateDate.NewDate: which strings `Date.parse` accepts beyond the ISO format is up to the engine, so the parser is the `dateParse` parameter.
- CreateDate.Code: the wall clock behind `new Date()` is the `now` parameter.
- JsString.NumberToString: numbers are integers. Floating point, NaN, infinities and -0 are not modelled, so a fractional numeric input to Create Date is out of scope. Neither are integers of magnitude 1e21 or more, which JavaScript writes in exponent form ("1e+21"), nor integers beyond 2^53, which it cannot hold exactly.
- IsNumberBlock.NumberIsNumber: it holds for every non-negative integer, while JavaScript rejects a number of 1e21 or more because its string form is in exponent form.
- JsString.ParseInt: `parseInt("-0")` is negative zero in JavaScript; here it is 0.
- JsSet.Dedup: elements are compared by structural equality of the value datatype, not by SameValueZero on object identity, so two distinct but equal objects count as one element.
- JsString.LocaleCompare: the order is code-point order, not the engine's ICU collation.
- SetOperation.Compare: strings are compared with the same code-point order instead of `localeCompare`'s numeric collation.
- JsString.IsUpper: capital letters are those of Latin-1, and JsString.ToLower and CheckChannelName.IsLowerCase share that limit. Full Unicode case mapping is not modelled, so a capital outside Latin-1, such as Greek Omega (U+03A9) or 'Ÿ' (U+0178), counts as lower case here.
- SetOperationLegacy.ExecuteSort: the model throws the TypeError whenever a non-string value would take part in a comparison, and the set has at least two defined elements. Which pairs V8's sort actually compares is not modelled.
- DateFormat.DateToString: the time-zone part is always "GMT+0000 (Coordinated Universal Time)", as for a UTC host.
- JsValue.ObjectKeys: integer-like keys are not moved in front of the other keys, as JavaScript property order would require.
- JsValue.ToString: every iterable that is not an array or a Set is written as "[object Object]"; JavaScript writes its own class tag, such as "[object Map]" or "[object Generator]". This reaches only error messages and `parseInt`, which gives NaN either way.
- SetOperation.Stringify: `JSON.stringify` escapes only the quote and the backslash here. Control characters (`\n`, `\t`, `\u00XX`) and lone surrogates are passed through unescaped, so the fallback comparison of two non-string elements holding such text can order them differently from JavaScript.
- CheckChannelName.ValidateInput: `at(0)` is compared as a whole character. JavaScript gives the first UTF-16 unit, which differs only for a name starting with a character outside the Basic Multilingual Plane, and such a character is never a dash.
- The host's logging, the `Block` type definitions and the block metadata (names, descriptions, input and output declarations) are not part of this model, apart from the option choices that give the defaults.
- Blocks run one after another. Discord, the bot runtime and any concurrency are out of scope.

## Findings

| source | as written | input that shows it | evidently intended | confidence | as-written member | corrected member |
|---|---|---|---|---|---|---|
| blocks/create-date.ts:19-21 | `addMonths` sets the year and the month in two separate calls, `setFullYear` then `setMonth` | a date of 29 February 2024 plus 13 months: `setFullYear(2025)` rolls it to 1 March 2025 and `setMonth(2)` keeps 1 March 2025 | 29 March 2025, as date-fns's `addMonths` gives with a single `setFullYear(y, m, d)` call | not executed | CreateDate.AddMonthsAsWritten, CreateDate.AddMonthsLeapDayCounterexample | CreateDate.AddMonths, CreateDate.AddMonthsZero, CreateDate.AddMonthsAssociative, CreateDate.AfterYearStepAgrees |
