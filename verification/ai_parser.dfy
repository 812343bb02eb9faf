/** The keyword stub that turns free text into candidate task fields
    (apps/tasks/ai_parser.py). The clock read of the source is the `today`
    parameter. */
module AiParser {
  import opened Optional
  import opened Text
  import opened Calendar

  /** The dictionary `parse_task_text` returns. */
  datatype ParsedTask = ParsedTask(title: string, description: string, dueDate: Option<string>, priority: string)

  const DefaultTitle := "New Task"
  const DefaultPriority := "medium"
  const Tomorrow := "tomorrow"
  const HighPriority := "high priority"
  const LowPriority := "low priority"
  /** The fixed time of day appended to the ISO date. */
  const DueTime := "T17:00:00"

  /** Keyword detection: `keyword in text.lower()`. The keywords are all
      lower-case already. */
  predicate Mentions(text: string, keyword: string) {
    Contains(Lower(text), keyword)
  }

  /** A keyword is mentioned exactly when it occurs at some position of the
      lower-cased text. */
  lemma MentionsOccurs(text: string, keyword: string)
    ensures Mentions(text, keyword) <==> exists i: nat :: OccursAt(Lower(text), keyword, i)
  {
    ContainsOccurs(Lower(text), keyword);
  }

  /** Keyword removal: `title.replace(keyword, "").strip()`, which removes
      only exact-case occurrences. */
  function RemoveKeyword(title: string, keyword: string): string
    requires keyword != ""
  {
    Strip(ReplaceAll(title, keyword, ""))
  }

  /** The title before the "New Task" fallback. */
  function StrippedTitle(text: string): string {
    var afterDate := if Mentions(text, Tomorrow) then RemoveKeyword(text, Tomorrow) else text;
    if Mentions(text, HighPriority) then RemoveKeyword(afterDate, HighPriority)
    else if Mentions(text, LowPriority) then RemoveKeyword(afterDate, LowPriority)
    else afterDate
  }

  /** The source raises OverflowError only when it must compute the day
      after `date.max`. */
  predicate CanParse(text: string, today: Date) {
    Valid(today) && (Mentions(text, Tomorrow) ==> today != MaxDate)
  }

  /** The `due_date` entry: the ISO form of the day after today at 17:00,
      exactly when "tomorrow" occurs in any case. */
  function ParseDueDate(text: string, today: Date): (r: Option<string>)
    requires CanParse(text, today)
    ensures r.Some? <==> Mentions(text, Tomorrow)
    ensures r.Some? ==> Trimmed(r.value)
    ensures r.Some? ==>
              |r.value| == 10 + |DueTime|
              && ReadIsoDate(r.value[..10]) == Some(NextDay(today))
              && r.value[10..] == DueTime
  {
    if Mentions(text, Tomorrow) then
      var iso := IsoDate(NextDay(today));
      IsoDateRoundTrip(NextDay(today));
      assert (iso + DueTime)[..10] == iso;
      assert (iso + DueTime)[0] == iso[0];
      Some(iso + DueTime)
    else None
  }

  /** The `priority` entry: "high priority" wins over "low priority", and
      "medium" is the default. */
  function ParsePriority(text: string): (r: string)
    ensures r == "high" || r == "low" || r == DefaultPriority
    ensures r == "high" <==> Mentions(text, HighPriority)
    ensures r == "low" <==> !Mentions(text, HighPriority) && Mentions(text, LowPriority)
  {
    if Mentions(text, HighPriority) then "high"
    else if Mentions(text, LowPriority) then "low"
    else DefaultPriority
  }

  /** The `title` entry: never blank, no white space at either end, and
      "New Task" when nothing is left after the keywords are removed. */
  function ParseTitle(text: string): (r: string)
    ensures r != "" && !Blank(r) && Trimmed(r)
    ensures Blank(StrippedTitle(text)) ==> r == DefaultTitle
    ensures !Blank(StrippedTitle(text)) ==> r == Strip(StrippedTitle(text))
  {
    var title := StrippedTitle(text);
    assert !IsSpace(DefaultTitle[0]);
    if Strip(title) != "" then Strip(title) else DefaultTitle
  }

  function ParseTaskText(text: string, today: Date): (r: ParsedTask)
    requires CanParse(text, today)
    ensures r.title != "" && !Blank(r.title) && Trimmed(r.title)
    ensures r.description == ""
    ensures r.priority == "high" || r.priority == "low" || r.priority == "medium"
    ensures r.priority == "high" <==> Mentions(text, HighPriority)
    ensures r.priority == "low" <==> !Mentions(text, HighPriority) && Mentions(text, LowPriority)
    ensures r.dueDate.Some? <==> Mentions(text, Tomorrow)
    ensures r.dueDate.Some? ==> Trimmed(r.dueDate.value)
    ensures r.dueDate.Some? ==>
              |r.dueDate.value| == 10 + |DueTime|
              && ReadIsoDate(r.dueDate.value[..10]) == Some(NextDay(today))
              && r.dueDate.value[10..] == DueTime
  {
    ParsedTask(ParseTitle(text), "", ParseDueDate(text, today), ParsePriority(text))
  }

  /** Text of white space alone parses to the default task: title
      "New Task", no due date, medium priority. */
  lemma BlankTextIsNewTask(text: string, today: Date)
    requires Valid(today) && Blank(text)
    ensures CanParse(text, today)
    ensures ParseTaskText(text, today) == ParsedTask(DefaultTitle, "", None, DefaultPriority)
  {
    assert NoUpper(text);
    LowerFacts(text);
    BlankContainsNothing(text, Tomorrow);
    BlankContainsNothing(text, HighPriority);
    BlankContainsNothing(text, LowPriority);
  }

  /** Keyword removal neither adds nor drops a null character. */
  lemma RemoveKeepsNul(title: string, keyword: string)
    requires keyword != "" && !HasNul(keyword)
    ensures HasNul(RemoveKeyword(title, keyword)) <==> HasNul(title)
  {
    StripKeepsVisible(ReplaceAll(title, keyword, ""), '\U{0}');
    RemovalKeepsChar(title, keyword, '\U{0}');
  }

  /** Neither keyword removal nor stripping touches a null character, so
      the title holds one exactly when the text does. */
  lemma TitleKeepsNul(text: string)
    ensures HasNul(ParseTitle(text)) <==> HasNul(text)
  {
    var title := StrippedTitle(text);
    StrippedTitleKeepsNul(text);
    StripKeepsVisible(title, '\U{0}');
    NoNulInDefaultTitle();
    if Blank(title) {
      BlankHasNo(title, '\U{0}');
    }
  }

  /** A literal fact kept in its own lemma so that callers do not unfold the
      title text in their larger proofs. */
  lemma NoNulInDefaultTitle()
    ensures !HasNul(DefaultTitle)
  {
  }

  /** Likewise for the keywords. */
  lemma NoNulInKeywords()
    ensures !HasNul(Tomorrow) && !HasNul(HighPriority) && !HasNul(LowPriority)
  {
  }

  lemma StrippedTitleKeepsNul(text: string)
    ensures HasNul(StrippedTitle(text)) <==> HasNul(text)
  {
    NoNulInKeywords();
    var afterDate := text;
    if Mentions(text, Tomorrow) {
      afterDate := RemoveKeyword(text, Tomorrow);
      RemoveKeepsNul(text, Tomorrow);
    }
    if Mentions(text, HighPriority) {
      assert StrippedTitle(text) == RemoveKeyword(afterDate, HighPriority);
      RemoveKeepsNul(afterDate, HighPriority);
    } else if Mentions(text, LowPriority) {
      assert StrippedTitle(text) == RemoveKeyword(afterDate, LowPriority);
      RemoveKeepsNul(afterDate, LowPriority);
    } else {
      assert StrippedTitle(text) == afterDate;
    }
  }

  /** Keywords are removed only in their exact case: text that holds none of
      them verbatim keeps its whole stripped text as title, even when a
      differently-cased keyword (say "Tomorrow") set the due date or the
      priority. */
  lemma CaseMismatchKeepsTitle(text: string, today: Date)
    requires CanParse(text, today)
    requires !Contains(text, Tomorrow) && !Contains(text, HighPriority) && !Contains(text, LowPriority)
    ensures ParseTaskText(text, today).title == if Strip(text) == "" then DefaultTitle else Strip(text)
  {
    KeywordFreeTitle(text);
  }

  lemma KeywordFreeTitle(text: string)
    requires !Contains(text, Tomorrow) && !Contains(text, HighPriority) && !Contains(text, LowPriority)
    ensures Strip(StrippedTitle(text)) == Strip(text)
  {
    var afterDate := DateKeywordAbsent(text);
    StripContains(text, HighPriority);
    StripContains(text, LowPriority);
    PriorityKeywordsAbsent(text, afterDate);
    StripIdempotent(text);
  }

  lemma DateKeywordAbsent(text: string) returns (afterDate: string)
    requires !Contains(text, Tomorrow)
    ensures afterDate == if Mentions(text, Tomorrow) then RemoveKeyword(text, Tomorrow) else text
    ensures afterDate == text || afterDate == Strip(text)
  {
    ReplaceAllAbsent(text, Tomorrow, "");
    afterDate := if Mentions(text, Tomorrow) then RemoveKeyword(text, Tomorrow) else text;
  }

  lemma PriorityKeywordsAbsent(text: string, afterDate: string)
    requires afterDate == if Mentions(text, Tomorrow) then RemoveKeyword(text, Tomorrow) else text
    requires !Contains(afterDate, HighPriority) && !Contains(afterDate, LowPriority)
    ensures StrippedTitle(text) == afterDate || StrippedTitle(text) == Strip(afterDate)
  {
    if Mentions(text, HighPriority) {
      RemoveAbsent(afterDate, HighPriority);
    } else if Mentions(text, LowPriority) {
      RemoveAbsent(afterDate, LowPriority);
    }
  }

  /** Removing a keyword that does not occur only strips. */
  lemma RemoveAbsent(title: string, keyword: string)
    requires keyword != "" && !Contains(title, keyword)
    ensures RemoveKeyword(title, keyword) == Strip(title)
  {
    ReplaceAllAbsent(title, keyword, "");
  }

  /** A keyword found in the stripped text was in the text. */
  lemma StripContains(s: string, k: string)
    ensures Contains(Strip(s), k) ==> Contains(s, k)
  {
    var r := Strip(s);
    var i := SkipSpaces(s, 0);
    if i == |s| {
      assert r == s[0..0];
      ContainsInfix(s, 0, 0, k);
    } else {
      assert r == s[i..i + |r|];
      ContainsInfix(s, i, i + |r|, k);
    }
  }

  /** The removal of a keyword is exactly the concatenation of the
      keyword-free pieces between the occurrences the left-to-right pass
      finds, then stripped. */
  lemma RemovalIsSplit(title: string, keyword: string)
    requires keyword != ""
    ensures RemoveKeyword(title, keyword) == Strip(Join(Split(title, keyword), ""))
    ensures Join(Split(title, keyword), keyword) == title
    ensures forall i :: 0 <= i < |Split(title, keyword)| ==> !Contains(Split(title, keyword)[i], keyword)
  {
    ReplaceAllIsSplitJoin(title, keyword, "");
    SplitJoin(title, keyword);
    SplitPiecesAvoid(title, keyword);
  }

  /** A single pass of `replace` can leave the keyword behind when removing
      one occurrence joins two halves of another. */
  lemma KeywordCanReappear()
    ensures ReplaceAll("tom" + Tomorrow + "orrow", Tomorrow, "") == Tomorrow
  {
    var text := "tom" + Tomorrow + "orrow";
    var tail := "om" + Tomorrow + "orrow";
    assert text[..8][3] != Tomorrow[3];
    assert text[1..] == tail;
    ReappearTail(tail);
  }

  lemma ReappearTail(tail: string)
    requires tail == "om" + Tomorrow + "orrow"
    ensures ReplaceAll(tail, Tomorrow, "") == "omorrow"
  {
    ShorterThanKeyword("orrow", Tomorrow);
    ReplaceAllAbsent("orrow", Tomorrow, "");
    NoCharStart("om", Tomorrow + "orrow", Tomorrow);
    assert "om" + (Tomorrow + "orrow") == "om" + Tomorrow + "orrow";
    ReplaceOne("om", Tomorrow, "orrow", "");
  }

  lemma ExactOccurrenceDetected(text: string, keyword: string, i: nat)
    requires NoUpper(keyword) && OccursAt(text, keyword, i)
    ensures Mentions(text, keyword)
  {
    var lowered := Lower(text);
    forall x | 0 <= x < |keyword|
      ensures lowered[i + x] == keyword[x]
    {
      assert text[i + x] == keyword[x];
    }
    assert OccursAt(lowered, keyword, i);
    ContainsOccurs(lowered, keyword);
  }

  /** The spacing of the keywords that lets a space before them fence off
      any occurrence starting earlier. */
  lemma KeywordSpacing()
    ensures forall j :: 0 <= j < |Tomorrow| ==> Tomorrow[j] != ' '
    ensures HighPriority[0] != ' ' && HighPriority[|HighPriority| - 1] != ' '
    ensures forall j :: 0 <= j < |HighPriority| - 1 ==> HighPriority[j] != ' ' || HighPriority[j + 1] != ' '
  {
  }

  /** Text followed by " tomorrow high priority" loses both phrases: for a
      trimmed head holding neither phrase in exact case, the title is the
      head, the priority "high", and the due date set. */
  lemma TrailingKeywords(head: string, today: Date)
    requires Valid(today) && today != MaxDate
    requires head != "" && Trimmed(head) && !Contains(head, Tomorrow) && !Contains(head, HighPriority)
    ensures ParseTaskText(head + " tomorrow high priority", today).title == head
    ensures ParseTaskText(head + " tomorrow high priority", today).priority == "high"
    ensures ParseTaskText(head + " tomorrow high priority", today).dueDate.Some?
  {
    TrailingShape();
    var text := head + (" " + Tomorrow + " " + HighPriority);
    TrailingKeywordsDetected(head, text);
    var afterDate := TrailingDateRemoved(head, text);
    TrailingPriorityRemoved(head, afterDate);
    StripTrimmed(head);
  }

  /** A literal split of the example's tail, kept apart so the proofs that
      use it stay small. */
  lemma TrailingShape()
    ensures " tomorrow high priority" == " " + Tomorrow + " " + HighPriority
  {
  }

  lemma TrailingKeywordsDetected(head: string, text: string)
    requires text == head + (" " + Tomorrow + " " + HighPriority)
    ensures Mentions(text, Tomorrow) && Mentions(text, HighPriority)
  {
    var n := |head|;
    assert text[n + 1..n + 9] == Tomorrow;
    assert text[n + 10..n + 23] == HighPriority;
    ExactOccurrenceDetected(text, Tomorrow, n + 1);
    ExactOccurrenceDetected(text, HighPriority, n + 10);
  }

  lemma TrailingDateRemoved(head: string, text: string) returns (afterDate: string)
    requires text == head + (" " + Tomorrow + " " + HighPriority)
    requires head != "" && Trimmed(head) && !Contains(head, Tomorrow)
    ensures RemoveKeyword(text, Tomorrow) == afterDate
    ensures afterDate == head + "  " + HighPriority
  {
    afterDate := head + "  " + HighPriority;
    DateReplaced(head, text, afterDate);
    DateStripped(head, afterDate);
  }

  lemma DateReplaced(head: string, text: string, afterDate: string)
    requires text == head + (" " + Tomorrow + " " + HighPriority)
    requires afterDate == head + "  " + HighPriority
    requires !Contains(head, Tomorrow)
    ensures ReplaceAll(text, Tomorrow, "") == afterDate
  {
    var lead := head + " ";
    var rest := " " + HighPriority;
    DateSplit(head, text, lead, rest);
    KeywordSpacing();
    SpaceBlocksKeyword(head, " " + Tomorrow + " " + HighPriority, Tomorrow);
    PriorityWithoutDate(rest);
    ReplaceOne(lead, Tomorrow, rest, "");
    assert lead + "" + rest == afterDate;
  }

  lemma DateSplit(head: string, text: string, lead: string, rest: string)
    requires text == head + (" " + Tomorrow + " " + HighPriority)
    requires lead == head + " " && rest == " " + HighPriority
    ensures text == lead + Tomorrow + rest
  {
  }

  lemma DateStripped(head: string, afterDate: string)
    requires afterDate == head + "  " + HighPriority
    requires head != "" && Trimmed(head)
    ensures Strip(afterDate) == afterDate
  {
    assert afterDate[0] == head[0];
    assert afterDate[|afterDate| - 1] == 'y';
    StripTrimmed(afterDate);
  }

  lemma PriorityWithoutDate(rest: string)
    requires rest == " " + HighPriority
    ensures ReplaceAll(rest, Tomorrow, "") == rest
  {
    var lead, short := " high p", "riority";
    assert rest == lead + short;
    NoCharStart(lead, short, Tomorrow);
    ReplaceAllSkip(lead, short, Tomorrow, "");
    ShorterThanKeyword(short, Tomorrow);
    ReplaceAllAbsent(short, Tomorrow, "");
  }

  lemma TrailingPriorityRemoved(head: string, afterDate: string)
    requires afterDate == head + "  " + HighPriority
    requires head != "" && Trimmed(head) && !Contains(head, HighPriority)
    ensures RemoveKeyword(afterDate, HighPriority) == head
  {
    var lead := head + "  ";
    KeywordSpacing();
    DoubleSpaceBlocksKeyword(head, "  " + HighPriority, HighPriority);
    assert lead + HighPriority + "" == head + ("  " + HighPriority);
    assert ReplaceAll("", HighPriority, "") == "";
    ReplaceOne(lead, HighPriority, "", "");
    assert afterDate + "" == afterDate;
    assert lead + "" + "" == lead;
    StripTrailing(head, "  ");
  }

  /** The worked example "Buy groceries tomorrow high priority". */
  lemma BuyGroceriesExample(text: string, today: Date)
    requires text == "Buy groceries tomorrow high priority"
    requires Valid(today) && today != MaxDate
    ensures ParseTaskText(text, today).title == "Buy groceries"
    ensures ParseTaskText(text, today).priority == "high"
    ensures ParseTaskText(text, today).dueDate.Some?
  {
    GroceriesShape();
    GroceriesHead("Buy groceries");
    TrailingKeywords("Buy groceries", today);
  }

  /** The test text split into its title and its tail; a literal fact kept
      apart so the proofs that use it stay small. */
  lemma GroceriesShape()
    ensures "Buy groceries tomorrow high priority" == "Buy groceries" + " tomorrow high priority"
  {
  }

  /** The title part of the test text is a plain trimmed phrase. */
  lemma GroceriesHead(head: string)
    requires head == "Buy groceries"
    ensures head != "" && Trimmed(head)
    ensures !Contains(head, Tomorrow) && !Contains(head, HighPriority)
  {
    assert forall i :: 0 <= i < |head| ==> head[i] != 't' && head[i] != 'h';
    NoCharNoContains(head, Tomorrow);
    NoCharNoContains(head, HighPriority);
  }

  /** Only the two ends are stripped: "tomorrow" taken from the middle of
      the text leaves the spaces on both sides of it in the title. */
  lemma InteriorGapKept(a: string, b: string, today: Date)
    requires Valid(today) && today != MaxDate
    requires a != "" && b != "" && Trimmed(a) && Trimmed(b)
    requires !Contains(a, Tomorrow) && !Contains(b, Tomorrow)
    requires !Mentions(a + " tomorrow " + b, HighPriority) && !Mentions(a + " tomorrow " + b, LowPriority)
    ensures ParseTaskText(a + " tomorrow " + b, today).title == a + "  " + b
    ensures ParseTaskText(a + " tomorrow " + b, today).dueDate.Some?
  {
    GapShape();
    var text := a + (" " + Tomorrow + " ") + b;
    var gapped := GapTitle(a, b, text);
    assert StrippedTitle(text) == gapped;
  }

  /** A literal split of the gap between the two halves, kept apart so the
      proofs that use it stay small. */
  lemma GapShape()
    ensures " tomorrow " == " " + Tomorrow + " "
  {
  }

  lemma GapTitle(a: string, b: string, text: string) returns (gapped: string)
    requires text == a + (" " + Tomorrow + " ") + b
    requires a != "" && b != "" && Trimmed(a) && Trimmed(b)
    requires !Contains(a, Tomorrow) && !Contains(b, Tomorrow)
    ensures Mentions(text, Tomorrow)
    ensures gapped == a + "  " + b && RemoveKeyword(text, Tomorrow) == gapped
  {
    var lead, rest := a + " ", " " + b;
    assert text == lead + Tomorrow + rest;
    GapDetected(lead, rest, text);
    GapRemoved(a, b, lead, rest);
    gapped := a + "  " + b;
    assert lead + "" + rest == gapped;
    assert gapped[0] == a[0] && gapped[|gapped| - 1] == b[|b| - 1];
    StripTrimmed(gapped);
  }

  lemma GapDetected(lead: string, rest: string, text: string)
    requires text == lead + Tomorrow + rest
    ensures Mentions(text, Tomorrow)
  {
    assert text[|lead|..|lead| + |Tomorrow|] == Tomorrow;
    ExactOccurrenceDetected(text, Tomorrow, |lead|);
  }

  lemma GapRemoved(a: string, b: string, lead: string, rest: string)
    requires lead == a + " " && rest == " " + b
    requires !Contains(a, Tomorrow) && !Contains(b, Tomorrow)
    ensures ReplaceAll(lead + Tomorrow + rest, Tomorrow, "") == lead + "" + rest
  {
    KeywordSpacing();
    SpaceBlocksKeyword(a, " " + Tomorrow + rest, Tomorrow);
    assert lead + Tomorrow + rest == a + (" " + Tomorrow + rest);
    NoCharStart(" ", b, Tomorrow);
    ReplaceAllSkip(" ", b, Tomorrow, "");
    ReplaceAllAbsent(b, Tomorrow, "");
    ReplaceOne(lead, Tomorrow, rest, "");
  }
}
