# Smart recipe generator: ingredient extraction, recipe parsing and registration checks

This project models the logic of a recipe-generator application and proves properties of the model. The application reads ingredients from photos, asks a chat model for a recipe and parses the recipe into fields. It also checks the contact details of new users.

Three groups of code are modelled.

- **The ingredient pipeline of `image.py`** (module `ImagePipeline`):
  - `clean_text` removes every character outside `[a-zA-Z0-9\s]` and then strips the result.
  - `identify_food_ingredients` sends each fragment that is not blank to a categorization service. It trims and lower-cases the answer. It drops empty answers and the answer "none", and deletes the modifiers "diced", "sliced" and "fresh" when they are followed by white space. It returns the distinct names.
  - `classify_image` returns `("unknown", 0.0)` when ML is disabled, and also when the classifier raises.
  - `process_uploaded_images` loops over a batch of images. An image that is missing, unreadable or failing is skipped. The classifier is a fallback for an image whose text yields no name; its label is accepted when confidence > 0.5 and the label is not "unknown". The collected names are de-duplicated and sorted, the sentinels "none" and "unknown" are dropped, and the rest are joined with ", ".
  - `ImageProcessor` is a class whose `mlEnabled` field is set once, when the object is built.
  - The categorization service is a function parameter from a fragment to a reply, either a failure or an answer. For each image, the outcomes of loading, preprocessing, OCR and classification are given as data.
- **`extract_recipe_details` and `format_ingredients` of `main.py`** (module `RecipeText`):
  - The parser is a state machine over the lines of the generated text. Header lines set the name, the cooking time and the cuisine, and open the nutrition and instructions sections. The lines of each open section are collected and joined at the end.
  - The method `ExtractRecipeDetails` is the loop as written. It is proved equal to a fold `Run` of a step function `Step` over the lines.
- **The validators and guards of `database.py`** (module `Registration`):
  - `is_valid_email` and `is_valid_phone_number` are anchored `re.match` patterns. Python's `$` also matches before one final newline.
  - `register_user` checks the email first and then the phone number. The database is reached only when both are valid.

Three supporting modules restate Python built-ins:

- `PyStrings`: `str.strip`, `lower`, `startswith`, `split` and `join`, and the `\s`/`\w` character classes.
- `StringOrder`: Python's code-point order on `str`, and `list.sort()`.
- `Sequences`: `set(...)` and `list(set(...))`, filtering and subsequences.

## Model

| member | source | states |
|---|---|---|
| PyStrings.Strip | main.py:118 | The result is the slice of the input left once white space is removed from both ends. It does not start or end with white space. It is empty exactly when the input is all white space. |
| PyStrings.StripIdempotent | image.py:120 | Stripping twice is stripping once. |
| PyStrings.Lower | image.py:145 | Same length. Each of 'A' to 'Z' becomes the letter 32 code points above it, and every other character is kept. The result has no upper-case letter. |
| PyStrings.LowerIdempotent | image.py:145 | Lower-casing twice is lower-casing once. |
| PyStrings.JoinSplit | main.py:105 | Joining the pieces of `split(sep)` with `sep` gives back the text, so splitting into lines loses nothing. |
| PyStrings.SplitJoin | image.py:205 | Splitting `sep.join(parts)` at `sep` gives back the parts. This needs at least one part, no part containing `sep`, and a `sep` that cannot overlap itself. |
| PyStrings.LastFieldSuffix | main.py:124 | `split(sep)[-1]` is a suffix of the text. |
| PyStrings.LastFieldWithoutSep | main.py:124 | `split(sep)[-1]` does not contain `sep`. |
| PyStrings.LastFieldPreceded | main.py:124 | `split(sep)[-1]` is either the whole text or preceded by `sep`. |
| PyStrings.LastFieldAfter | main.py:124 | For `x + sep + w` with `w` free of a non-overlapping `sep`, `split(sep)[-1]` is `w`. |
| PyStrings.JoinTrimmed | main.py:141-142 | Joining non-empty trimmed lines gives a trimmed, non-empty string, whatever the separator. |
| Sequences.Dedup | image.py:153 | `list(set(s))` has no duplicates and exactly the elements of `s`. |
| StringOrder.Sort | image.py:203 | `list.sort()` gives an ascending permutation of its input. |
| StringOrder.StrictlySortedUnique | image.py:202-203 | Two strictly ascending lists with the same elements are equal. |
| ImagePipeline.RemoveNoise | image.py:119 | Only `[a-zA-Z0-9\s]` is left, as a subsequence of the input. |
| ImagePipeline.RemoveNoiseKeepsClean | image.py:119 | Every letter, digit and white-space character of the input is kept, as often as it occurs. |
| ImagePipeline.RemoveNoiseAlnums | image.py:119 | The ASCII letters and digits are those of the input, in order. |
| ImagePipeline.RemoveNoiseClean | image.py:119 | Clean input is unchanged. |
| ImagePipeline.CleanText | image.py:117-120 | The result is the noise-free text with white space cut from its two ends only, so inner white space is kept. It is trimmed and clean, and a subsequence of the input. It keeps every letter and digit, and it is empty exactly when the input has none. |
| ImagePipeline.CleanTextIdempotent | image.py:117-120 | Cleaning a cleaned text changes nothing. |
| ImagePipeline.RemoveModifiers | image.py:147 | The result is a subsequence of the input: the substitution only deletes characters. |
| ImagePipeline.RemoveModifiersKeepsLast | image.py:147 | A last character that is not white space survives, so a trimmed non-empty answer stays non-empty. |
| ImagePipeline.RemoveModifiersKeepsStart | image.py:147 | Text that does not start with white space does not after the substitution either. |
| ImagePipeline.RemoveModifiersNoUpper | image.py:145-147 | Text without upper-case letters stays without them. |
| ImagePipeline.RemoveModifiersUnchanged | image.py:147 | Text in which no modifier followed by white space starts is unchanged. |
| ImagePipeline.ModifierBeforeWord | image.py:147 | "diced", "sliced" or "fresh", one space and a word leaves only the word. |
| ImagePipeline.DicedOnion | image.py:147 | "diced onion" becomes "onion". |
| ImagePipeline.RemoveModifiersUnmatchedPrefix | image.py:147 | Text in which no match starts is kept, and the substitution goes on after it. |
| ImagePipeline.ModifierInTheMiddle | image.py:147 | The substitution is global: a modifier after any text in which no match starts is deleted too. |
| ImagePipeline.RedFreshBasil | image.py:147 | "red fresh basil" becomes "red basil". |
| ImagePipeline.ResolveFragment | image.py:134-151 | A blank fragment or a failed request yields nothing. An answer is kept exactly when, after `strip().lower()`, it is neither empty nor "none". The kept name is that text with the modifiers removed, and it is non-empty, trimmed and has no upper-case letter. |
| ImagePipeline.PaddedUpperNoneDropped | image.py:145-146 | The answer " NONE " is dropped. |
| ImagePipeline.CapitalizedAnswerKept | image.py:145-148 | The answer "Onion" is kept as "onion". |
| ImagePipeline.Resolved | image.py:134-151 | Every name the loop appends is non-empty, trimmed and lower-case. |
| ImagePipeline.Queried | image.py:134-137 | The fragments sent to the service form a subsequence of the input. None of them is blank, and every non-blank fragment is sent. |
| ImagePipeline.QueriedCounts | image.py:134-138 | One request is sent per non-blank occurrence: a fragment occurring twice is sent twice. |
| ImagePipeline.ResolvedAppend | image.py:134-151 | Fragments are handled independently: the names for `a + b` are those for `a` followed by those for `b`. |
| ImagePipeline.SkippedFragment | image.py:135-151 | A fragment that yields nothing (blank, failed request, empty or "none" answer) does not affect the rest. |
| ImagePipeline.ResolvedMembers | image.py:145-148 | A name is found exactly when some fragment resolves to it. |
| ImagePipeline.ModifiedNoneIsKept | image.py:145-148 | The answer "fresh none" passes the "none" test and is kept as the name "none". |
| ImagePipeline.PerformOcr | image.py:76-90 | An OCR exception gives `("", [])`. Otherwise the Tesseract text is cleaned, and fragment i of the result is EasyOCR fragment i cleaned. Every result fragment is trimmed and clean. |
| ImagePipeline.Classification | image.py:92-115 | `("unknown", 0.0)` when ML is disabled or the classifier raises; otherwise the predicted label and confidence. |
| ImagePipeline.AcceptLabel | image.py:187-188 | A label is accepted exactly when confidence > 0.5 and its lower-case form is not "unknown". The accepted name is that lower-case form. |
| ImagePipeline.ConfidenceBoundary | image.py:187 | A confidence of exactly 0.5 is rejected, and one just above it is accepted. |
| ImagePipeline.DegradedResultRejected | image.py:93-94 | With ML disabled the classifier's result is never accepted. |
| ImagePipeline.FallbackOnlyWhenTextFails | image.py:179-188 | When the text yields a name, an image's names depend neither on the classifier nor on the ML flag. |
| ImagePipeline.DisabledClassifierAddsNothing | image.py:184-188 | With ML disabled, an image contributes only the names its text resolves to. |
| ImagePipeline.ImageNames | image.py:174-188 | A skipped image gives nothing. Names resolved from the text are the image's names; otherwise at most one name comes from the classifier. No name has an upper-case letter, and "unknown" only comes from the text. |
| ImagePipeline.Collected | image.py:159-188 | A name is collected exactly when some image contributes it. |
| ImagePipeline.TesseractIgnored | image.py:174-181 | The Tesseract text does not influence the result. |
| ImagePipeline.SkippedImageIsolated | image.py:159-172 | A missing, unreadable, failing or raising image contributes nothing, and later images are still processed. |
| ImagePipeline.Finalize | image.py:201-205 | The final names are strictly ascending: the collected names without "none" and "unknown". |
| ImagePipeline.FinalizeDependsOnlyOnElems | image.py:202-203 | The result depends only on which names were collected, not on their order or repetitions. |
| ImagePipeline.FinalizeDistinct | image.py:201-205 | Each name appears once, and neither sentinel appears. |
| ImagePipeline.Render | image.py:201-205 | The result is "" exactly when nothing but the sentinels, and possibly the empty name, was collected. |
| ImagePipeline.FinalizeNothing | image.py:201-205 | No name is left, or only the empty name, exactly when nothing else but sentinels was collected. |
| ImagePipeline.EmptyBatch | image.py:155-205 | An empty batch yields "". |
| ImagePipeline.NothingFoundDisabled | image.py:174-188 | One image whose text resolves to nothing, with ML disabled, yields "". |
| ImagePipeline.RenderTwoNames | image.py:201-205 | Two distinct non-sentinel names, collected any number of times in any order, give "a, b" in ascending order. |
| ImagePipeline.RenderSplits | image.py:205 | Splitting the result at ", " gives the final names back, when no name contains ", ". |
| ImagePipeline.ImageProcessor.constructor | image.py:22-28 | `mlEnabled` holds exactly when the ML libraries and the model loaded. |
| ImagePipeline.ImageProcessor.SetupMl | image.py:30-53 | `mlEnabled` becomes true exactly when the dependencies load and the model set-up succeeds. |
| ImagePipeline.ImageProcessor.ClassifyImage | image.py:92-115 | `("unknown", 0.0)` when ML is disabled or the classifier raises; otherwise the predicted label and confidence. |
| ImagePipeline.ImageProcessor.IdentifyFoodIngredients | image.py:122-153 | The result has no duplicates, and its elements are exactly the names the fragments resolve to. The fragments sent to the service are exactly the non-blank ones. |
| ImagePipeline.ProcessUploadedImages | image.py:155-205 | The result is the sorted, de-duplicated, sentinel-free join of the names every image contributes, the fallback included. |
| RecipeText.HeadersExclusive | main.py:122-135 | No line starts with two of the five headers, so the order of the `elif` tests is immaterial. |
| RecipeText.FieldText | main.py:124-130 | The value a header line gives its entry is trimmed. |
| RecipeText.Step | main.py:117-139 | A blank line changes nothing. Each section list grows by at most the trimmed line, and only while its section is active. Only a header line changes the section. |
| RecipeText.Run | main.py:116-139 | Section lists are only appended to, by at most one line per input line. |
| RecipeText.Finish | main.py:141-142 | The three entries are kept. Both joins are trimmed, and "" when nothing was collected. The join of trimmed non-empty lines is not changed by the final `strip()`. |
| RecipeText.ExtractRecipeDetails | main.py:103-144 | The loop computes the fold of the line step over the lines of the text, followed by the two joins. |
| RecipeText.RunAppend | main.py:117-139 | Reading `a` and then `b` is reading `a + b`. |
| RecipeText.BlankLineIgnored | main.py:118-120 | A line that is blank after trimming changes nothing, the current section included. |
| RecipeText.FieldUntouched | main.py:122-131 | Lines that are not an entry's header line leave that entry unchanged. |
| RecipeText.LastHeaderWins | main.py:122-131 | The entry holds the value of the last header line of its kind. |
| RecipeText.MissingFieldIsEmpty | main.py:106-112 | An entry that no line supplies is "". |
| RecipeText.OrdinaryStep | main.py:136-139 | A non-header line is appended, trimmed, to the active section's list, or discarded when no section is active. |
| RecipeText.SectionCollects | main.py:136-139 | A run of non-header lines appends its trimmed non-blank lines, in order, to the active section's list. It changes nothing else. |
| RecipeText.NutritionSectionCollects | main.py:132-137 | After the nutrition header, the following content lines go to the nutrition list and nowhere else. |
| RecipeText.InstructionsSectionCollects | main.py:134-139 | After the instructions header, the following content lines go to the instructions list and nowhere else. |
| RecipeText.HeaderEndsSection | main.py:122-131 | The name, cooking-time and cuisine headers close the section. Content lines after them are discarded. |
| RecipeText.CollectedLinesTrimmed | main.py:117-139 | Every collected section line is non-empty and trimmed. |
| RecipeText.SectionsJoined | main.py:141-142 | The final `strip()` removes nothing: nutrition is the lines joined with " ", instructions the lines joined with "\n". |
| RecipeText.MissingNutritionIsEmpty | main.py:132-141 | Without a nutrition header, no nutrition line is collected. |
| RecipeText.MissingInstructionsIsEmpty | main.py:134-142 | Without an instructions header, no instruction line is collected. |
| RecipeText.NameIsLastWord | main.py:124 | A name line ending in a word gives that word as the name, so a multi-word name keeps only its last word. |
| RecipeText.TextAfterHeader | main.py:127-130 | The cooking time and the cuisine are the trimmed text after their header, when the header does not recur on the line. |
| RecipeText.FormatIngredients | main.py:64-68 | Text passes through unchanged, and an empty list gives "". |
| RecipeText.FormatIngredientsSplits | main.py:66-67 | Splitting a formatted list at ", " gives the names back, when no name contains ", ". |
| Registration.IsValidEmail | database.py:55-57 | An accepted address starts with a local-part character and ends with "@gmail.com", possibly followed by one newline. |
| Registration.IsValidPhoneNumber | database.py:60-62 | An accepted number has 10 or 11 characters, the first ten of them digits. |
| Registration.LocalRun | database.py:57 | The greedy `[\w\.-]+` consumes the longest prefix of local-part characters. |
| Registration.IsValidEmailIff | database.py:55-57 | An email is accepted exactly when it is a non-empty run of `[\w.-]` followed by "@gmail.com", optionally followed by one newline. |
| Registration.LocalRunIsLocalPart | database.py:57 | When local-part characters are followed by '@', the greedy run stops at the '@'. |
| Registration.ValidEmailHasOneAt | database.py:57 | An accepted email has exactly one '@', the one ending the local part. |
| Registration.OtherDomainRejected | database.py:57 | Any domain other than "gmail.com" is rejected. |
| Registration.EmptyLocalPartRejected | database.py:57 | An email starting with '@' is rejected. |
| Registration.EmailTrailingNewline | database.py:57 | `$` accepts one trailing newline but not two. |
| Registration.DigitStringAccepted | database.py:60-62 | A string of digits is accepted exactly when it has ten of them. |
| Registration.ValidPhoneShape | database.py:60-62 | A phone number is accepted exactly when it is ten digits, optionally followed by one newline. |
| Registration.RegisterUser | database.py:65-91 | An invalid email is reported whatever the phone number. An invalid phone number is reported only for a valid email. Success happens exactly when both are valid and the insert succeeds. |
| Registration.GuardsBeforeDatabase | database.py:68-75 | An invalid email or phone number returns False, whatever the database would do. |

## Left out

- The Streamlit interface, the OpenAI requests, OpenCV image loading and preprocessing, Tesseract and EasyOCR, the PyTorch classifier, the file system (including the clean-up of temporary files) and PostgreSQL are not part of this model. Their outcomes are inputs: `Reply`, `OcrOutcome`, `Prediction`, `SkipReason` and `DbOutcome`.
- The ML-dependency and model loading in `load_ml_dependencies` and `setup_ml` is reduced to two booleans.
- `Raised`: an exception in `process_uploaded_images` after part of an image's names were added is modelled as the image contributing nothing. Partial contributions of a raising image are not modelled.
- ImagePipeline.ImageProcessor.IdentifyFoodIngredients: Python's `set` leaves the order unspecified, so the contract states only the elements and their distinctness. The model's `Dedup` keeps first occurrences, and the final result is proved not to depend on that order.
- PyStrings.Lower: `str.lower()` is modelled on ASCII letters only. Other cased characters are kept as they are.
- PyStrings.IsWordChar: `\w` is restricted to ASCII letters, digits and `_`. Python also accepts Unicode letters and digits in a `str` pattern.
- Registration.IsValidPhoneNumber: `\d` is restricted to ASCII digits. Python also accepts other Unicode decimal digits.
- Registration.RegisterUser: the username, profile picture, password and date of birth go only to the database insert and are not modelled.
- RecipeText.FormatIngredients: only the two argument kinds the application passes, a list of strings and a string, are modelled. `str()` of other values is not.
