/** The pure selection rules of the console menu (`SearchMenu`): picking an
    option by its printed number, and turning the keyword prompt's answers
    into the arguments of `search_by_keyword`. */
module Menu {
  import opened Wrappers
  import opened Text
  import Proposals

  predicate IsDigit(c: char)
  {
    '0' <= c <= '9'
  }

  /** `s.isdigit()` for ASCII input: non-empty and made of decimal digits. */
  predicate IsDigits(s: string)
  {
    |s| > 0 && forall i :: 0 <= i < |s| ==> IsDigit(s[i])
  }

  /** `int(s)` for a string of decimal digits (leading zeros allowed). */
  function DigitsValue(s: string): nat
    requires forall i :: 0 <= i < |s| ==> IsDigit(s[i])
  {
    if s == [] then 0
    else
      assert IsDigit(s[|s| - 1]);
      DigitsValue(s[..|s| - 1]) * 10 + (s[|s| - 1] as int - '0' as int)
  }

  function DigitChar(d: nat): char
    requires d < 10
  {
    ('0' as int + d) as char
  }

  /** `str(n)`: the number as the menu prints it before each option. */
  function Decimal(n: nat): (s: string)
    ensures IsDigits(s)
  {
    if n < 10 then [DigitChar(n)] else Decimal(n / 10) + [DigitChar(n % 10)]
  }

  /** Reading back a printed number gives the number. */
  lemma {:induction false} DecimalRoundTrip(n: nat)
    ensures DigitsValue(Decimal(n)) == n
  {
    if n >= 10 {
      DecimalRoundTrip(n / 10);
      var s := Decimal(n);
      assert s[..|s| - 1] == Decimal(n / 10);
    }
  }

  /** Leading zeros do not change the value read. */
  lemma {:induction false} LeadingZeroIgnored(s: string)
    requires forall i :: 0 <= i < |s| ==> IsDigit(s[i])
    ensures DigitsValue("0" + s) == DigitsValue(s)
  {
    if s != [] {
      var init := s[..|s| - 1];
      LeadingZeroIgnored(init);
      assert ("0" + s)[..|s|] == "0" + init;
    }
  }

  /** The rule of `get_category_input`, `get_result_input` and
      `get_department_input`: an all-digit answer n with 1 <= n <= |options|
      selects options[n - 1]; any other answer (Enter included) selects nothing. */
  function ChooseFromList(choice: string, options: seq<string>): (picked: Option<string>)
    ensures picked.Some? ==> picked.value in options
    ensures picked.Some? ==> IsDigits(choice)
  {
    if IsDigits(choice) && 1 <= DigitsValue(choice) <= |options| then Some(options[DigitsValue(choice) - 1])
    else None
  }

  /** Typing the number printed before an option selects that option. */
  lemma TypingPrintedNumberSelects(options: seq<string>, i: nat)
    requires i < |options|
    ensures ChooseFromList(Decimal(i + 1), options) == Some(options[i])
  {
    DecimalRoundTrip(i + 1);
  }

  /** A number no option is printed with selects nothing. */
  lemma TypingUnlistedNumberSelectsNothing(options: seq<string>, n: nat)
    requires n == 0 || n > |options|
    ensures ChooseFromList(Decimal(n), options) == None
  {
    DecimalRoundTrip(n);
  }

  /** The answer "01" selects the same option as "1". */
  lemma LeadingZeroSelectsSame(options: seq<string>, choice: string)
    requires IsDigits(choice)
    ensures ChooseFromList("0" + choice, options) == ChooseFromList(choice, options)
  {
    LeadingZeroIgnored(choice);
  }

  /** The fields searched by option 2 ("search all fields"). */
  const AllSearchFields: seq<string> := ["content", "who", "full_name", "category", "result"]

  /** `get_keyword_input` after reading its two answers: an empty keyword
      gives (None, None); otherwise the keyword with the content column, or
      with five columns when the option is "2". */
  function KeywordInput(option: string, keyword: string): (answer: (Option<string>, Option<seq<string>>))
    ensures keyword == [] <==> answer == (None, None)
    ensures keyword != [] ==> answer.0 == Some(keyword) && answer.1.Some?
    ensures answer.1.Some? ==> forall n :: n in answer.1.value ==> Proposals.ColumnNamed(n).Some?
  {
    if keyword == [] then (None, None)
    else
      var searchFields := if option == "2" then AllSearchFields else ["content"];
      (Some(keyword), Some(searchFields))
  }

  /** Some cell of `r` outside time_place contains the keyword. */
  predicate AnyFieldButTimePlace(r: Proposals.Record, keyword: string)
  {
    || Proposals.CellContains(r, Proposals.ContentColumn, keyword)
    || Proposals.CellContains(r, Proposals.WhoColumn, keyword)
    || Proposals.CellContains(r, Proposals.FullNameColumn, keyword)
    || Proposals.CellContains(r, Proposals.CategoryColumn, keyword)
    || Proposals.CellContains(r, Proposals.ResultColumn, keyword)
  }

  function AllFieldsFilter(keyword: string): Proposals.Record -> bool
  {
    r => AnyFieldButTimePlace(r, keyword)
  }

  /** The keyword search the menu starts never raises; option "2" finds the
      rows where any of content, who, full_name, category or result contains
      the keyword (time_place is not searched), any other option the rows
      whose content contains it. */
  lemma MenuKeywordSearch(rows: seq<Proposals.Record>, option: string, keyword: string)
    requires keyword != []
    ensures var (kw, searchFields) := KeywordInput(option, keyword);
            Proposals.KeywordSearch(rows, kw.value, searchFields) ==
              Ok(Proposals.Select(rows, if option == "2" then AllFieldsFilter(keyword) else Proposals.ContentFilter(keyword)))
  {
    if option == "2" {
      var names := AllSearchFields;
      assert forall n :: n in names <==> n in {"content", "who", "full_name", "category", "result"};
      assert Proposals.ColumnNamed(names[0]).Some?;
      Proposals.KeywordSearchSelects(rows, keyword, Some(names));
      forall i | 0 <= i < |rows|
        ensures Proposals.HitFilter(names, keyword)(rows[i]) == AllFieldsFilter(keyword)(rows[i])
      {
        var r := rows[i];
        if Proposals.KeywordHit(r, names, keyword) {
          var n :| n in names && Proposals.ColumnNamed(n).Some? &&
                   Proposals.CellContains(r, Proposals.ColumnNamed(n).value, keyword);
          assert n in {"content", "who", "full_name", "category", "result"};
          assert AnyFieldButTimePlace(r, keyword);
        }
        if AnyFieldButTimePlace(r, keyword) {
          assert Proposals.KeywordHit(r, names, keyword) by {
            if Proposals.CellContains(r, Proposals.ContentColumn, keyword) {
              assert Proposals.ColumnNamed("content") == Some(Proposals.ContentColumn);
            } else if Proposals.CellContains(r, Proposals.WhoColumn, keyword) {
              assert Proposals.ColumnNamed("who") == Some(Proposals.WhoColumn);
            } else if Proposals.CellContains(r, Proposals.FullNameColumn, keyword) {
              assert Proposals.ColumnNamed("full_name") == Some(Proposals.FullNameColumn);
            } else if Proposals.CellContains(r, Proposals.CategoryColumn, keyword) {
              assert Proposals.ColumnNamed("category") == Some(Proposals.CategoryColumn);
            } else {
              assert Proposals.ColumnNamed("result") == Some(Proposals.ResultColumn);
            }
          }
        }
      }
      Proposals.SelectAgreeing(rows, Proposals.HitFilter(names, keyword), AllFieldsFilter(keyword));
    } else {
      Proposals.KeywordSearchDefaultsToContent(rows, keyword);
    }
  }
}
