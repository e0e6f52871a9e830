/** `extract_recipe_details` and `format_ingredients` of main.py. The parser reads the
    generated recipe line by line; a `current_section` variable decides where a line
    that is not a header goes, three header lines set the name, the cooking time and
    the cuisine, and two lists collect the lines of the nutrition and instructions
    sections. */
module RecipeText {
  import opened Sequences
  import opened PyStrings

  const RecipeNameHeader: string := "**Recipe Name:**"
  const CookingTimeHeader: string := "**Cooking Time:**"
  const CuisineHeader: string := "**Cuisine:**"
  const NutritionHeader: string := "**Nutritional Information:**"
  const InstructionsHeader: string := "**Instructions:**"

  /** The values of `current_section`: `None`, "nutritional_info" and "instructions". */
  datatype Section = NoSection | NutritionalInfo | Instructions

  /** The dictionary the parser returns: always exactly these five entries. */
  datatype RecipeDetails = RecipeDetails(name: string, cookingTime: string, cuisine: string,
                                         nutritionalInfo: string, instructions: string)

  /** The loop's variables: the current section, the three single-line entries and the
      two lists of section lines. */
  datatype ParseState = ParseState(section: Section, name: string, cookingTime: string, cuisine: string,
                                   nutritionLines: seq<string>, instructionLines: seq<string>)

  const Start: ParseState := ParseState(NoSection, "", "", "", [], [])

  /** Which branch of the `if`/`elif` chain a trimmed line takes. */
  datatype LineKind = Blank | NameLine | CookingTimeLine | CuisineLine | NutritionStart | InstructionsStart | Content

  function KindOf(line: string): LineKind {
    if line == [] then Blank
    else if StartsWith(line, RecipeNameHeader) then NameLine
    else if StartsWith(line, CookingTimeHeader) then CookingTimeLine
    else if StartsWith(line, CuisineHeader) then CuisineLine
    else if StartsWith(line, NutritionHeader) then NutritionStart
    else if StartsWith(line, InstructionsHeader) then InstructionsStart
    else Content
  }

  /** No line starts with two of the headers (they differ in their third or fourth
      character), so the order of the `elif` tests does not matter. */
  lemma HeadersExclusive(line: string)
    ensures StartsWith(line, RecipeNameHeader) ==>
              !StartsWith(line, CookingTimeHeader) && !StartsWith(line, CuisineHeader)
              && !StartsWith(line, NutritionHeader) && !StartsWith(line, InstructionsHeader)
    ensures StartsWith(line, CookingTimeHeader) ==>
              !StartsWith(line, CuisineHeader) && !StartsWith(line, NutritionHeader)
              && !StartsWith(line, InstructionsHeader)
    ensures StartsWith(line, CuisineHeader) ==>
              !StartsWith(line, NutritionHeader) && !StartsWith(line, InstructionsHeader)
    ensures StartsWith(line, NutritionHeader) ==> !StartsWith(line, InstructionsHeader)
  {
    StartsWithAt(line, RecipeNameHeader, 2);
    StartsWithAt(line, CookingTimeHeader, 2);
    StartsWithAt(line, CookingTimeHeader, 3);
    StartsWithAt(line, CuisineHeader, 2);
    StartsWithAt(line, CuisineHeader, 3);
    StartsWithAt(line, NutritionHeader, 2);
    StartsWithAt(line, InstructionsHeader, 2);
  }

  lemma StartsWithAt(line: string, prefix: string, k: nat)
    requires k < |prefix|
    ensures StartsWith(line, prefix) ==> line[k] == prefix[k]
  {
    if StartsWith(line, prefix) {
      assert line[..|prefix|][k] == line[k];
    }
  }

  /** The three entries a single header line sets. */
  datatype Field = NameField | CookingTimeField | CuisineField

  function HeaderKind(f: Field): LineKind {
    match f
    case NameField => NameLine
    case CookingTimeField => CookingTimeLine
    case CuisineField => CuisineLine
  }

  /** The value a header line gives its entry: for the name the last space-separated
      token (`line.split(" ")[-1].strip()`), for the others the text after the last
      occurrence of the header (`line.split(header)[-1].strip()`). */
  function FieldText(line: string, f: Field): (r: string)
    ensures Trimmed(r)
  {
    match f
    case NameField => Strip(LastField(line, " "))
    case CookingTimeField => Strip(LastField(line, CookingTimeHeader))
    case CuisineField => Strip(LastField(line, CuisineHeader))
  }

  function Value(st: ParseState, f: Field): string {
    match f
    case NameField => st.name
    case CookingTimeField => st.cookingTime
    case CuisineField => st.cuisine
  }

  /** One iteration of the loop over the lines. A blank line changes nothing; each
      section list grows by at most the trimmed line, and only while its section is
      active; only a header line changes the section. */
  function Step(st: ParseState, raw: string): (r: ParseState)
    ensures AllSpace(raw) ==> r == st
    ensures r.nutritionLines == st.nutritionLines
            || (st.section == NutritionalInfo && r.nutritionLines == st.nutritionLines + [Strip(raw)])
    ensures r.instructionLines == st.instructionLines
            || (st.section == Instructions && r.instructionLines == st.instructionLines + [Strip(raw)])
    ensures r.section != st.section ==> KindOf(Strip(raw)) != Blank && KindOf(Strip(raw)) != Content
  {
    var line := Strip(raw);
    match KindOf(line)
    case Blank => st
    case NameLine => st.(name := FieldText(line, NameField), section := NoSection)
    case CookingTimeLine => st.(cookingTime := FieldText(line, CookingTimeField), section := NoSection)
    case CuisineLine => st.(cuisine := FieldText(line, CuisineField), section := NoSection)
    case NutritionStart => st.(section := NutritionalInfo)
    case InstructionsStart => st.(section := Instructions)
    case Content =>
      match st.section
      case NutritionalInfo => st.(nutritionLines := st.nutritionLines + [line])
      case Instructions => st.(instructionLines := st.instructionLines + [line])
      case NoSection => st
  }

  /** The state after the loop has read `lines`, starting from `st`. */
  function Run(st: ParseState, lines: seq<string>): (r: ParseState)
    ensures st.nutritionLines <= r.nutritionLines && st.instructionLines <= r.instructionLines
    ensures |r.nutritionLines| + |r.instructionLines| <= |st.nutritionLines| + |st.instructionLines| + |lines|
  {
    if lines == [] then st else Step(Run(st, lines[..|lines| - 1]), lines[|lines| - 1])
  }

  /** The two joins after the loop. */
  function Finish(st: ParseState): (r: RecipeDetails)
    ensures r.name == st.name && r.cookingTime == st.cookingTime && r.cuisine == st.cuisine
    ensures Trimmed(r.nutritionalInfo) && Trimmed(r.instructions)
    ensures st.nutritionLines == [] ==> r.nutritionalInfo == ""
    ensures st.instructionLines == [] ==> r.instructions == ""
    ensures AllNonEmptyTrimmed(st.nutritionLines) ==> r.nutritionalInfo == Join(st.nutritionLines, " ")
    ensures AllNonEmptyTrimmed(st.instructionLines) ==> r.instructions == Join(st.instructionLines, "\n")
  {
    FinishJoin(st.nutritionLines, " ");
    FinishJoin(st.instructionLines, "\n");
    RecipeDetails(st.name, st.cookingTime, st.cuisine,
                  Strip(Join(st.nutritionLines, " ")), Strip(Join(st.instructionLines, "\n")))
  }

  /** The `strip()` after a join removes nothing when the joined lines are trimmed. */
  lemma FinishJoin(parts: seq<string>, sep: string)
    ensures parts == [] ==> Strip(Join(parts, sep)) == ""
    ensures AllNonEmptyTrimmed(parts) ==> Strip(Join(parts, sep)) == Join(parts, sep)
  {
    if AllNonEmptyTrimmed(parts) {
      JoinTrimmed(parts, sep);
      StripTrimmed(Join(parts, sep));
    }
  }

  /** What `extract_recipe_details(recipe_text)` returns. */
  function RecipeDetailsOf(recipeText: string): RecipeDetails {
    Finish(Run(Start, Split(recipeText, "\n")))
  }

  /** `extract_recipe_details`, as the loop the source runs. */
  method ExtractRecipeDetails(recipeText: string) returns (details: RecipeDetails)
    ensures details == RecipeDetailsOf(recipeText)
  {
    var lines := Split(recipeText, "\n");
    details := RecipeDetails("", "", "", "", "");
    var currentSection := NoSection;
    var nutritionalInfoLines: seq<string> := [];
    var instructionsLines: seq<string> := [];
    for i := 0 to |lines|
      invariant details.nutritionalInfo == "" && details.instructions == ""
      invariant Run(Start, lines[..i]) == ParseState(currentSection, details.name, details.cookingTime,
                                                     details.cuisine, nutritionalInfoLines, instructionsLines)
    {
      assert lines[..i + 1][..i] == lines[..i];
      var line := Strip(lines[i]);
      if line == [] {
      } else if StartsWith(line, RecipeNameHeader) {
        details := details.(name := Strip(LastField(line, " ")));
        currentSection := NoSection;
      } else if StartsWith(line, CookingTimeHeader) {
        details := details.(cookingTime := Strip(LastField(line, CookingTimeHeader)));
        currentSection := NoSection;
      } else if StartsWith(line, CuisineHeader) {
        details := details.(cuisine := Strip(LastField(line, CuisineHeader)));
        currentSection := NoSection;
      } else if StartsWith(line, NutritionHeader) {
        currentSection := NutritionalInfo;
      } else if StartsWith(line, InstructionsHeader) {
        currentSection := Instructions;
      } else if currentSection == NutritionalInfo {
        nutritionalInfoLines := nutritionalInfoLines + [line];
      } else if currentSection == Instructions {
        instructionsLines := instructionsLines + [line];
      }
    }
    assert lines[..|lines|] == lines;
    details := details.(nutritionalInfo := Strip(Join(nutritionalInfoLines, " ")),
                        instructions := Strip(Join(instructionsLines, "\n")));
  }

  // ---------------------------------------------------------------------------
  // Properties of the parser
  // ---------------------------------------------------------------------------

  /** Reading `a` and then `b` is reading `a + b`. */
  lemma {:induction false} RunAppend(st: ParseState, a: seq<string>, b: seq<string>)
    ensures Run(st, a + b) == Run(Run(st, a), b)
    decreases |b|
  {
    if b == [] {
      assert a + b == a;
    } else {
      var init := b[..|b| - 1];
      assert (a + b)[..|a + b| - 1] == a + init;
      assert (a + b)[|a + b| - 1] == b[|b| - 1];
      RunAppend(st, a, init);
    }
  }

  /** A line that is empty after trimming changes nothing, the current section
      included. */
  lemma BlankLineIgnored(st: ParseState, pre: seq<string>, raw: string, post: seq<string>)
    requires AllSpace(raw)
    ensures Run(st, pre + [raw] + post) == Run(st, pre + post)
  {
    RunAppend(st, pre + [raw], post);
    RunAppend(st, pre, [raw]);
    RunAppend(st, pre, post);
    assert [raw][..0] == [];
    assert Step(Run(st, pre), raw) == Run(st, pre);
  }

  /** Lines that are not header lines of an entry leave that entry as it was. */
  lemma {:induction false} FieldUntouched(st: ParseState, lines: seq<string>, f: Field)
    requires forall i :: 0 <= i < |lines| ==> KindOf(Strip(lines[i])) != HeaderKind(f)
    ensures Value(Run(st, lines), f) == Value(st, f)
    decreases |lines|
  {
    if lines != [] {
      FieldUntouched(st, lines[..|lines| - 1], f);
    }
  }

  /** A later header line of the same kind overwrites an earlier one: the entry holds
      the value of the last such line. */
  lemma LastHeaderWins(st: ParseState, a: seq<string>, raw: string, b: seq<string>, f: Field)
    requires KindOf(Strip(raw)) == HeaderKind(f)
    requires forall i :: 0 <= i < |b| ==> KindOf(Strip(b[i])) != HeaderKind(f)
    ensures Value(Run(st, a + [raw] + b), f) == FieldText(Strip(raw), f)
  {
    RunAppend(st, a + [raw], b);
    RunAppend(st, a, [raw]);
    assert [raw][..0] == [];
    FieldUntouched(Run(st, a + [raw]), b, f);
  }

  function DetailValue(d: RecipeDetails, f: Field): string {
    match f
    case NameField => d.name
    case CookingTimeField => d.cookingTime
    case CuisineField => d.cuisine
  }

  /** An entry that no line supplies is "" in the result. */
  lemma MissingFieldIsEmpty(lines: seq<string>, f: Field)
    requires forall i :: 0 <= i < |lines| ==> KindOf(Strip(lines[i])) != HeaderKind(f)
    ensures DetailValue(Finish(Run(Start, lines)), f) == ""
  {
    FieldUntouched(Start, lines, f);
  }

  /** A line that is neither a header nor blank (or is blank). */
  predicate Ordinary(raw: string) {
    KindOf(Strip(raw)) == Blank || KindOf(Strip(raw)) == Content
  }

  /** The trimmed, non-blank lines of `lines`, in order. */
  function ContentLines(lines: seq<string>): seq<string> {
    if lines == [] then []
    else
      var line := Strip(lines[|lines| - 1]);
      ContentLines(lines[..|lines| - 1]) + (if line == [] then [] else [line])
  }

  /** `st` with `extra` appended to the list of its active section; unchanged when no
      section is active. */
  function Appended(st: ParseState, extra: seq<string>): ParseState {
    match st.section
    case NutritionalInfo => st.(nutritionLines := st.nutritionLines + extra)
    case Instructions => st.(instructionLines := st.instructionLines + extra)
    case NoSection => st
  }

  lemma AppendedTwice(st: ParseState, a: seq<string>, b: seq<string>)
    ensures Appended(Appended(st, a), b) == Appended(st, a + b)
  {
    assert st.nutritionLines + a + b == st.nutritionLines + (a + b);
    assert st.instructionLines + a + b == st.instructionLines + (a + b);
  }

  /** One ordinary line: appended, trimmed, to the active section's list, or discarded. */
  lemma OrdinaryStep(st: ParseState, raw: string)
    requires Ordinary(raw)
    ensures Step(st, raw) == Appended(st, if Strip(raw) == [] then [] else [Strip(raw)])
  {
    if Strip(raw) == [] {
      assert st.nutritionLines + [] == st.nutritionLines;
      assert st.instructionLines + [] == st.instructionLines;
    }
  }

  /** Lines that are neither headers nor blank: while a section is active each of them is
      appended, trimmed, to that section's list; while none is active they are
      discarded. The section does not change, nor do the three entries. */
  lemma {:induction false} SectionCollects(st: ParseState, lines: seq<string>)
    requires forall i :: 0 <= i < |lines| ==> Ordinary(lines[i])
    ensures Run(st, lines) == Appended(st, ContentLines(lines))
    decreases |lines|
  {
    if lines == [] {
      assert st.nutritionLines + [] == st.nutritionLines;
      assert st.instructionLines + [] == st.instructionLines;
    } else {
      var init := lines[..|lines| - 1];
      var raw := lines[|lines| - 1];
      SectionCollects(st, init);
      OrdinaryStep(Run(st, init), raw);
      var extra := if Strip(raw) == [] then [] else [Strip(raw)];
      AppendedTwice(st, ContentLines(init), extra);
    }
  }

  /** After the nutrition header, the following ordinary lines are collected into the
      nutrition list, in order. */
  lemma NutritionSectionCollects(st: ParseState, raw: string, lines: seq<string>)
    requires KindOf(Strip(raw)) == NutritionStart
    requires forall i :: 0 <= i < |lines| ==> Ordinary(lines[i])
    ensures Run(st, [raw] + lines).nutritionLines == st.nutritionLines + ContentLines(lines)
    ensures Run(st, [raw] + lines).instructionLines == st.instructionLines
  {
    RunAppend(st, [raw], lines);
    assert [raw][..0] == [];
    SectionCollects(Step(st, raw), lines);
  }

  /** After the instructions header, the following ordinary lines are collected into
      the instructions list, in order. */
  lemma InstructionsSectionCollects(st: ParseState, raw: string, lines: seq<string>)
    requires KindOf(Strip(raw)) == InstructionsStart
    requires forall i :: 0 <= i < |lines| ==> Ordinary(lines[i])
    ensures Run(st, [raw] + lines).instructionLines == st.instructionLines + ContentLines(lines)
    ensures Run(st, [raw] + lines).nutritionLines == st.nutritionLines
  {
    RunAppend(st, [raw], lines);
    assert [raw][..0] == [];
    SectionCollects(Step(st, raw), lines);
  }

  /** The name, cooking-time and cuisine headers end the current section: the ordinary
      lines after them (the ingredients list, for one) are discarded. */
  lemma HeaderEndsSection(st: ParseState, raw: string, lines: seq<string>, f: Field)
    requires KindOf(Strip(raw)) == HeaderKind(f)
    requires forall i :: 0 <= i < |lines| ==> Ordinary(lines[i])
    ensures Run(st, [raw] + lines).section == NoSection
    ensures Run(st, [raw] + lines).nutritionLines == st.nutritionLines
    ensures Run(st, [raw] + lines).instructionLines == st.instructionLines
  {
    RunAppend(st, [raw], lines);
    assert [raw][..0] == [];
    SectionCollects(Step(st, raw), lines);
  }

  /** Only trimmed, non-empty lines are ever appended to the section lists. */
  lemma StepKeepsTrimmed(st: ParseState, raw: string)
    requires AllNonEmptyTrimmed(st.nutritionLines) && AllNonEmptyTrimmed(st.instructionLines)
    ensures AllNonEmptyTrimmed(Step(st, raw).nutritionLines)
    ensures AllNonEmptyTrimmed(Step(st, raw).instructionLines)
  {
    var line := Strip(raw);
    assert line != [] ==> Trimmed(line);
  }

  lemma {:induction false} CollectedLinesTrimmed(lines: seq<string>)
    ensures AllNonEmptyTrimmed(Run(Start, lines).nutritionLines)
    ensures AllNonEmptyTrimmed(Run(Start, lines).instructionLines)
    decreases |lines|
  {
    if lines != [] {
      CollectedLinesTrimmed(lines[..|lines| - 1]);
      StepKeepsTrimmed(Run(Start, lines[..|lines| - 1]), lines[|lines| - 1]);
    }
  }

  /** The final `strip()` of the two joins removes nothing: the nutrition entry is the
      collected lines joined with single spaces, the instructions entry the collected
      lines joined with newlines. */
  lemma SectionsJoined(lines: seq<string>)
    ensures var r := Run(Start, lines);
            && Finish(r).nutritionalInfo == Join(r.nutritionLines, " ")
            && Finish(r).instructions == Join(r.instructionLines, "\n")
  {
    var r := Run(Start, lines);
    CollectedLinesTrimmed(lines);
    JoinTrimmed(r.nutritionLines, " ");
    JoinTrimmed(r.instructionLines, "\n");
    StripTrimmed(Join(r.nutritionLines, " "));
    StripTrimmed(Join(r.instructionLines, "\n"));
  }

  /** Without its header line a section stays empty. */
  lemma {:induction false} MissingNutritionIsEmpty(lines: seq<string>)
    requires forall i :: 0 <= i < |lines| ==> KindOf(Strip(lines[i])) != NutritionStart
    ensures Run(Start, lines).nutritionLines == [] && Run(Start, lines).section != NutritionalInfo
    decreases |lines|
  {
    if lines != [] {
      MissingNutritionIsEmpty(lines[..|lines| - 1]);
    }
  }

  lemma {:induction false} MissingInstructionsIsEmpty(lines: seq<string>)
    requires forall i :: 0 <= i < |lines| ==> KindOf(Strip(lines[i])) != InstructionsStart
    ensures Run(Start, lines).instructionLines == [] && Run(Start, lines).section != Instructions
    decreases |lines|
  {
    if lines != [] {
      MissingInstructionsIsEmpty(lines[..|lines| - 1]);
    }
  }

  /** The name is the last space-separated word of the header line, so a multi-word
      name keeps only its final word: "**Recipe Name:** Spaghetti Carbonara" gives
      "Carbonara". */
  lemma NameIsLastWord(st: ParseState, x: string, w: string)
    requires w != [] && Trimmed(w) && !Contains(w, " ")
    ensures Step(st, RecipeNameHeader + x + " " + w).name == w
  {
    var raw := RecipeNameHeader + x + " " + w;
    NameLineTrimmed(x, w);
    NameLineKind(x, w);
    NameLineField(x, w);
  }

  lemma NameLineTrimmed(x: string, w: string)
    requires w != [] && Trimmed(w)
    ensures Strip(RecipeNameHeader + x + " " + w) == RecipeNameHeader + x + " " + w
  {
    var raw := RecipeNameHeader + x + " " + w;
    assert raw[0] == '*' && raw[|raw| - 1] == w[|w| - 1];
    StripTrimmed(raw);
  }

  lemma NameLineKind(x: string, w: string)
    ensures KindOf(RecipeNameHeader + x + " " + w) == NameLine
  {
    var raw := RecipeNameHeader + x + " " + w;
    assert raw[..|RecipeNameHeader|] == RecipeNameHeader;
  }

  lemma NameLineField(x: string, w: string)
    requires w != [] && Trimmed(w) && !Contains(w, " ")
    ensures FieldText(RecipeNameHeader + x + " " + w, NameField) == w
  {
    assert BorderFree(" ");
    LastFieldAfter(RecipeNameHeader + x, " ", w);
    StripTrimmed(w);
  }

  /** The cooking time and the cuisine are the trimmed text after their header, when
      the header does not occur again on the line. */
  lemma TextAfterHeader(v: string, f: Field)
    requires f != NameField
    requires !Contains(v, if f == CookingTimeField then CookingTimeHeader else CuisineHeader)
    ensures f == CookingTimeField ==> FieldText(CookingTimeHeader + v, f) == Strip(v)
    ensures f == CuisineField ==> FieldText(CuisineHeader + v, f) == Strip(v)
  {
    if f == CookingTimeField {
      LastFieldAfterLeading(CookingTimeHeader, v);
    } else {
      LastFieldAfterLeading(CuisineHeader, v);
    }
  }

  // ---------------------------------------------------------------------------
  // format_ingredients
  // ---------------------------------------------------------------------------

  /** The two kinds of argument the application passes: a list of names, or text. */
  datatype IngredientsArg = IngredientList(items: seq<string>) | IngredientText(text: string)

  /** A list is joined with ", "; any other value is converted with `str`, so text
      passes through unchanged. */
  function FormatIngredients(ingredients: IngredientsArg): (r: string)
    ensures ingredients.IngredientText? ==> r == ingredients.text
    ensures ingredients == IngredientList([]) ==> r == ""
  {
    match ingredients
    case IngredientList(items) => Join(items, ", ")
    case IngredientText(text) => text
  }

  /** Splitting the formatted list at ", " gives the names back when none of them
      contains ", ". */
  lemma FormatIngredientsSplits(items: seq<string>)
    requires items != []
    requires forall i :: 0 <= i < |items| ==> !Contains(items[i], ", ")
    ensures Split(FormatIngredients(IngredientList(items)), ", ") == items
  {
    assert BorderFree(", ") by {
      assert ", "[1..] == " " && ", "[..1] == ",";
    }
    SplitJoin(items, ", ");
  }
}
