/**
 * `OsmService.LocalizeOpeningHours`: an OpenStreetMap `opening_hours` value is
 * translated into Ukrainian by a fixed, ordered chain of ordinal
 * `string.Replace` calls, one per Latin token.
 */
module OpeningHours {
  import opened Wrappers
  import opened Text

  /** The (token, replacement) pairs, in the order the replacements are applied. */
  const Table: seq<(string, string)> := [
    ("Mo", "Пн"), ("Tu", "Вт"), ("We", "Ср"), ("Th", "Чт"), ("Fr", "Пт"),
    ("Sa", "Сб"), ("Su", "Нд"), ("PH", "Свята"), ("off", "Вихідний"), ("24/7", "Цілодобово")]

  predicate IsAscii(s: string) {
    forall k | 0 <= k < |s| :: s[k] < '\U{80}'
  }

  predicate NoAscii(s: string) {
    forall k | 0 <= k < |s| :: s[k] >= '\U{80}'
  }

  /**
   * A usable row: a non-empty Latin token and a non-blank replacement written
   * without a single Latin character, so no replacement can create a token.
   */
  predicate WellFormedRow(row: (string, string)) {
    row.0 != [] && IsAscii(row.0) && row.1 != [] && NoAscii(row.1) && !Blank(row.1)
  }

  predicate WellFormed(table: seq<(string, string)>) {
    forall i | 0 <= i < |table| :: WellFormedRow(table[i])
  }

  /** `s` contains none of the table's tokens. */
  predicate TokenFree(s: string, table: seq<(string, string)>) {
    forall i | 0 <= i < |table| :: !Contains(s, table[i].0)
  }

  /** `c` occurs in none of the table's tokens. */
  predicate Separator(c: char, table: seq<(string, string)>) {
    forall i | 0 <= i < |table| :: c !in table[i].0
  }

  lemma TableWellFormed()
    ensures WellFormed(Table)
  {
    forall i | 0 <= i < |Table| ensures WellFormedRow(Table[i]) {
      RowWellFormed(Table[i]);
    }
  }

  lemma RowWellFormed(row: (string, string))
    requires row in Table
    ensures WellFormedRow(row)
  {
    assert !IsWhiteSpace(row.1[0]);
  }

  /** Every token is non-empty, as `string.Replace` demands. */
  predicate NonEmptyTokens(table: seq<(string, string)>) {
    forall i | 0 <= i < |table| :: table[i].0 != []
  }

  /** `s.Replace(t0, r0).Replace(t1, r1)...` over the rows of `table`, left to right. */
  function ApplyTable(s: string, table: seq<(string, string)>): string
    requires NonEmptyTokens(table)
    decreases |table|
  {
    if table == [] then s
    else ApplyTable(Replace(s, table[0].0, table[0].1), table[1..])
  }

  /** The replacement chain of `LocalizeOpeningHours`, without its blank-input guard. */
  function Localize(s: string): string {
    ApplyTable(s, Table)
  }

  /**
   * `LocalizeOpeningHours(rawHours)`: `null` (here `None`) for a blank value,
   * otherwise the value with every token replaced; the result is never blank
   * and holds no Latin token any more.
   */
  function LocalizeOpeningHours(rawHours: string): (r: Option<string>)
    ensures r.None? <==> Blank(rawHours)
    ensures r.Some? ==> !Blank(r.value) && TokenFree(r.value, Table)
  {
    if Blank(rawHours) then None
    else
      TableWellFormed();
      ApplyTableRemoves(rawHours, Table);
      ApplyTableKeepsNonBlank(rawHours, Table);
      Some(Localize(rawHours))
  }

  /** A token absent from the input stays absent through the whole chain. */
  lemma {:induction false} ApplyTableAvoids(s: string, table: seq<(string, string)>, q: string)
    requires WellFormed(table) && q != [] && IsAscii(q) && !Contains(s, q)
    ensures !Contains(ApplyTable(s, table), q)
    decreases |table|
  {
    if table != [] {
      var row := table[0];
      assert WellFormedRow(row);
      ReplaceAvoids(s, row.0, row.1, q);
      ApplyTableAvoids(Replace(s, row.0, row.1), table[1..], q);
    }
  }

  /** After the chain no token of the table is left. */
  lemma {:induction false} ApplyTableRemoves(s: string, table: seq<(string, string)>)
    requires WellFormed(table)
    ensures TokenFree(ApplyTable(s, table), table)
    decreases |table|
  {
    if table != [] {
      var row := table[0];
      assert WellFormedRow(row);
      var t := Replace(s, row.0, row.1);
      ReplaceAvoids(s, row.0, row.1, row.0);
      ApplyTableAvoids(t, table[1..], row.0);
      ApplyTableRemoves(t, table[1..]);
      forall i | 1 <= i < |table| ensures !Contains(ApplyTable(s, table), table[i].0) {
        assert table[i] == table[1..][i - 1];
      }
    }
  }

  /** Input without any token passes through the chain unchanged. */
  lemma {:induction false} ApplyTableIdentity(s: string, table: seq<(string, string)>)
    requires WellFormed(table) && TokenFree(s, table)
    ensures ApplyTable(s, table) == s
    decreases |table|
  {
    if table != [] {
      assert !Contains(s, table[0].0);
      ApplyTableIdentity(s, table[1..]);
    }
  }

  /** The first `k` rows do nothing to input that contains none of their tokens. */
  lemma {:induction false} ApplyTableSkip(s: string, table: seq<(string, string)>, k: nat)
    requires WellFormed(table) && k <= |table| && TokenFree(s, table[..k])
    ensures ApplyTable(s, table) == ApplyTable(s, table[k..])
    decreases k
  {
    if k > 0 {
      assert table[..k][0] == table[0];
      assert table[1..][..k - 1] == table[..k][1..];
      ApplyTableSkip(s, table[1..], k - 1);
      assert table[1..][k - 1..] == table[k..];
    }
  }

  /** A separator character is copied unchanged and in place by every row. */
  lemma {:induction false} ApplyTableSplit(a: string, c: char, b: string, table: seq<(string, string)>)
    requires WellFormed(table) && Separator(c, table)
    ensures ApplyTable(a + [c] + b, table) == ApplyTable(a, table) + [c] + ApplyTable(b, table)
    decreases |table|
  {
    if table != [] {
      var row := table[0];
      ReplaceSplit(a, c, b, row.0, row.1);
      ApplyTableSplit(Replace(a, row.0, row.1), c, Replace(b, row.0, row.1), table[1..]);
    }
  }

  lemma {:induction false} ApplyTableKeepsNonBlank(s: string, table: seq<(string, string)>)
    requires WellFormed(table) && !Blank(s)
    ensures !Blank(ApplyTable(s, table))
    decreases |table|
  {
    if table != [] {
      assert WellFormedRow(table[0]);
      ReplaceKeepsNonBlank(s, table[0].0, table[0].1);
      ApplyTableKeepsNonBlank(Replace(s, table[0].0, table[0].1), table[1..]);
    }
  }

  /** Localising a second time changes nothing. */
  lemma LocalizeIdempotent(rawHours: string)
    ensures LocalizeOpeningHours(rawHours).Some? ==>
              LocalizeOpeningHours(LocalizeOpeningHours(rawHours).value) == LocalizeOpeningHours(rawHours)
  {
    if !Blank(rawHours) {
      var t := Localize(rawHours);
      TableWellFormed();
      ApplyTableRemoves(rawHours, Table);
      ApplyTableKeepsNonBlank(rawHours, Table);
      assert LocalizeOpeningHours(rawHours) == Some(t);
      ApplyTableIdentity(t, Table);
      assert LocalizeOpeningHours(t) == Some(t);
    }
  }

  /** Every character that occurs in some token. */
  const TokenChars: set<char> := {'M', 'o', 'T', 'u', 'W', 'e', 'h', 'F', 'r', 'S', 'a', 'P', 'H', 'f', '2', '4', '/', '7'}

  lemma TokenCharsCover()
    ensures forall i, k | 0 <= i < |Table| && 0 <= k < |Table[i].0| :: Table[i].0[k] in TokenChars
  {
  }

  /**
   * Characters outside the tokens are copied unchanged and in order: the
   * chain works on each side of such a character independently.
   */
  lemma LocalizeSplit(a: string, c: char, b: string)
    requires c !in TokenChars
    ensures Localize(a + [c] + b) == Localize(a) + [c] + Localize(b)
  {
    TableWellFormed();
    TokenCharsCover();
    ApplyTableSplit(a, c, b, Table);
  }

  /** Text made only of characters outside the tokens is left as it is. */
  lemma LocalizeForeign(s: string)
    requires forall k | 0 <= k < |s| :: s[k] !in TokenChars
    ensures Localize(s) == s
  {
    TableWellFormed();
    TokenCharsCover();
    forall i | 0 <= i < |Table| ensures !Contains(s, Table[i].0) {
      DisjointNotContains(s, Table[i].0);
    }
    ApplyTableIdentity(s, Table);
  }

  /** Text without a single Latin character holds no token. */
  lemma {:induction false} NonLatinTokenFree(s: string, table: seq<(string, string)>)
    requires WellFormed(table) && NoAscii(s)
    ensures TokenFree(s, table)
  {
    forall i | 0 <= i < |table| ensures !Contains(s, table[i].0) {
      assert WellFormedRow(table[i]);
      DisjointNotContains(s, table[i].0);
    }
  }

  /** A lone token becomes its replacement, when no earlier token occurs in it. */
  lemma {:induction false} ApplyTableToken(table: seq<(string, string)>, k: nat)
    requires WellFormed(table) && k < |table| && TokenFree(table[k].0, table[..k])
    ensures ApplyTable(table[k].0, table) == table[k].1
  {
    var row := table[k];
    assert WellFormedRow(row);
    ApplyTableSkip(row.0, table, k);
    var rest := table[k..];
    assert rest[0] == row && rest[1..] == table[k + 1..];
    assert Replace(row.0, row.0, row.1) == row.1 by {
      assert StartsWith(row.0, row.0) && row.0[|row.0|..] == [];
    }
    NonLatinTokenFree(row.1, rest[1..]);
    ApplyTableIdentity(row.1, rest[1..]);
  }

  /** No token contains an earlier one, so each reaches its own row intact. */
  lemma TokenFreeOfEarlier(k: nat)
    requires k < |Table|
    ensures TokenFree(Table[k].0, Table[..k])
  {
    forall i | 0 <= i < k ensures !Contains(Table[k].0, Table[i].0) {
      var s, p := Table[k].0, Table[i].0;
      if k < 8 {
        ContainsShort(s, p);
      } else if k == 8 {
        assert s == "off" && s[1..] == "ff" && s[..2] == "of";
        ContainsShort("ff", p);
      } else {
        assert s == "24/7";
        DisjointNotContains(s, p);
      }
    }
  }

  /** Each token on its own is translated to exactly its replacement. */
  lemma LocalizeToken(k: nat)
    requires k < |Table|
    ensures Localize(Table[k].0) == Table[k].1
  {
    TableWellFormed();
    TokenFreeOfEarlier(k);
    ApplyTableToken(Table, k);
  }

  /** `LocalizeSplit` with both pieces already known: the step the worked example below chains. */
  lemma LocalizeJoin(a: string, c: char, b: string, ra: string, rb: string)
    requires c !in TokenChars && Localize(a) == ra && Localize(b) == rb
    ensures Localize(a + [c] + b) == ra + [c] + rb
  {
    LocalizeSplit(a, c, b);
  }

  /*
   * The worked example "Mo-Fr 08:00-18:00; Su off", built up from its right
   * end one separator at a time. Facts about the literal strings are proved
   * apart from any mention of `Localize`, which keeps each step cheap.
   */

  lemma ExampleSeparators()
    ensures '-' !in TokenChars && ' ' !in TokenChars
    ensures !Blank("Mo-Fr 08:00-18:00; Su off")
  {
    assert !IsWhiteSpace("Mo-Fr 08:00-18:00; Su off"[0]);
  }

  lemma ExampleTimesForeign()
    ensures forall k | 0 <= k < |"08:00-18:00;"| :: "08:00-18:00;"[k] !in TokenChars
  {
  }

  lemma ExampleTextSuOff()
    ensures "Su" + [' '] + "off" == "Su off"
    ensures "Нд" + [' '] + "Вихідний" == "Нд Вихідний"
  {
  }

  lemma ExampleTextTimes()
    ensures "08:00-18:00;" + [' '] + "Su off" == "08:00-18:00; Su off"
    ensures "08:00-18:00;" + [' '] + "Нд Вихідний" == "08:00-18:00; Нд Вихідний"
  {
  }

  lemma ExampleTextFr()
    ensures "Fr" + [' '] + "08:00-18:00; Su off" == "Fr 08:00-18:00; Su off"
    ensures "Пт" + [' '] + "08:00-18:00; Нд Вихідний" == "Пт 08:00-18:00; Нд Вихідний"
  {
  }

  lemma ExampleTextMo()
    ensures "Mo" + ['-'] + "Fr 08:00-18:00; Su off" == "Mo-Fr 08:00-18:00; Su off"
    ensures "Пн" + ['-'] + "Пт 08:00-18:00; Нд Вихідний" == "Пн-Пт 08:00-18:00; Нд Вихідний"
  {
  }

  lemma ExampleMo() ensures Localize("Mo") == "Пн" { LocalizeToken(0); }
  lemma ExampleFr() ensures Localize("Fr") == "Пт" { LocalizeToken(4); }
  lemma ExampleSu() ensures Localize("Su") == "Нд" { LocalizeToken(6); }
  lemma ExampleOff() ensures Localize("off") == "Вихідний" { LocalizeToken(8); }
  lemma ExampleTimes() ensures Localize("08:00-18:00;") == "08:00-18:00;" { ExampleTimesForeign(); LocalizeForeign("08:00-18:00;"); }

  lemma ExampleFromSu()
    ensures Localize("Su off") == "Нд Вихідний"
  {
    ExampleSeparators();
    ExampleTextSuOff();
    ExampleSu();
    ExampleOff();
    LocalizeJoin("Su", ' ', "off", "Нд", "Вихідний");
  }

  lemma ExampleFromTimes()
    ensures Localize("08:00-18:00; Su off") == "08:00-18:00; Нд Вихідний"
  {
    ExampleSeparators();
    ExampleTextTimes();
    ExampleTimes();
    ExampleFromSu();
    LocalizeJoin("08:00-18:00;", ' ', "Su off", "08:00-18:00;", "Нд Вихідний");
  }

  lemma ExampleFromFr()
    ensures Localize("Fr 08:00-18:00; Su off") == "Пт 08:00-18:00; Нд Вихідний"
  {
    ExampleSeparators();
    ExampleTextFr();
    ExampleFr();
    ExampleFromTimes();
    LocalizeJoin("Fr", ' ', "08:00-18:00; Su off", "Пт", "08:00-18:00; Нд Вихідний");
  }

  /** The worked example: weekday and "off" tokens translated, times untouched. */
  lemma LocalizeExample()
    ensures LocalizeOpeningHours("Mo-Fr 08:00-18:00; Su off") == Some("Пн-Пт 08:00-18:00; Нд Вихідний")
  {
    ExampleSeparators();
    ExampleTextMo();
    ExampleMo();
    ExampleFromFr();
    LocalizeJoin("Mo", '-', "Fr 08:00-18:00; Su off", "Пн", "Пт 08:00-18:00; Нд Вихідний");
  }
}
