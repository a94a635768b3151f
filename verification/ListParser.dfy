/** The exercise module's parameter parser: numbers separated by single spaces. */
module ListParser {
  import opened Numerals

  const INT_MAX := 0x7fff_ffff

  // A C int after arithmetic that may have run over.
  function Wrap(x: int): (r: int)
    ensures -0x8000_0000 <= r <= 0x7fff_ffff && (r - x) % 0x1_0000_0000 == 0
  {
    (x + 0x8000_0000) % 0x1_0000_0000 - 0x8000_0000
  }

  predicate EndsInSpace(s: string) {
    s != "" && s[|s| - 1] == ' '
  }

  // The fields with more text at the end of the last one.
  function Extended(fields: seq<string>, t: string): seq<string>
    requires fields != []
  {
    fields[..|fields| - 1] + [fields[|fields| - 1] + t]
  }

  // The text split at every space; always at least one field, possibly empty.
  function Fields(s: string): (fields: seq<string>)
    ensures fields != []
  {
    if s == "" then [""]
    else
      var front, c := Fields(s[..|s| - 1]), s[|s| - 1];
      if c == ' ' then front + [""] else Extended(front, [c])
  }

  // The digits of a field, as the parser sums them up.
  function Value(field: string): int {
    if field == "" then 0
    else Wrap(Wrap(Value(field[..|field| - 1]) * 10) + (field[|field| - 1] as int - '0' as int))
  }

  /** The number of array entries: a last field counts only if it is not empty. */
  function Count(s: string): nat {
    if s == "" || EndsInSpace(s) then |Fields(s)| - 1 else |Fields(s)|
  }

  /** The counting loop of lkp_init. */
  method CountIntegers(s: string) returns (count: nat)
    ensures count == Count(s)
  {
    var i := 0;
    count := 0;
    while i < |s|
      invariant 0 <= i <= |s| && count == |Fields(s[..i])| - 1
    {
      assert s[..i + 1][..i] == s[..i];
      if s[i] == ' ' {
        count := count + 1;
      }
      i := i + 1;
    }
    assert s[..i] == s;
    if i > 0 && s[i - 1] != ' ' {
      count := count + 1;
    }
  }

  /** Fills one entry a field. The last store goes past the end of the array exactly when the
      text is empty or ends in a space; it is reported here, not made. */
  method ConvertStrToIntegers(s: string, intArray: array<int>) returns (overrun: bool)
    requires intArray.Length == Count(s)
    modifies intArray
    ensures overrun <==> s == "" || EndsInSpace(s)
    ensures forall k | 0 <= k < intArray.Length :: intArray[k] == Value(Fields(s)[k])
  {
    hide FieldCount, Running, Fields, Value, Wrap;
    var count := intArray.Length;
    var i, j, sum := 0, 0, 0;
    NoText(s);
    while i < |s| && j < count
      invariant 0 <= i <= |s| && j <= count
      invariant j + 1 == FieldCount(s, i) <= |Fields(s)| && sum == Running(s, i)
      invariant forall k | 0 <= k < j :: intArray[k] == Value(Fields(s)[k])
    {
      FieldsNext(s, i);
      FieldsLeft(s, i + 1);
      if s[i] == ' ' {
        intArray[j] := sum;
        sum := 0;
        j := j + 1;
      } else {
        sum := Wrap(Wrap(sum * 10) + (s[i] as int - '0' as int));
      }
      i := i + 1;
    }
    WholeText(s);
    if j < count {
      intArray[j] := sum;
      overrun := false;
    } else {
      overrun := true;
    }
  }

  // How many fields the first i characters make, and the value of the last of them.
  function FieldCount(s: string, i: nat): nat
    requires i <= |s|
  {
    |Fields(s[..i])|
  }

  function Running(s: string, i: nat): int
    requires i <= |s|
  {
    Value(Fields(s[..i])[FieldCount(s, i) - 1])
  }

  lemma NoText(s: string)
    ensures FieldCount(s, 0) == 1 <= |Fields(s)| && Running(s, 0) == 0
  {
    assert s[..0] == "";
  }

  lemma {:induction false} WholeText(s: string)
    ensures FieldCount(s, |s|) == |Fields(s)| && Running(s, |s|) == Value(Fields(s)[|Fields(s)| - 1])
    ensures EndsInSpace(s) ==> Fields(s)[|Fields(s)| - 1] == "" && |Fields(s)| >= 2
  {
    assert s[..|s|] == s;
  }

  // One more character: a space closes the last field, anything else extends it.
  lemma FieldsNext(s: string, i: nat)
    requires i < |s|
    ensures
      if s[i] == ' ' then
        && FieldCount(s, i + 1) == FieldCount(s, i) + 1 <= |Fields(s)| && Running(s, i + 1) == 0
        && Running(s, i) == Value(Fields(s)[FieldCount(s, i) - 1])
      else
        && FieldCount(s, i + 1) == FieldCount(s, i)
        && Running(s, i + 1) == Wrap(Wrap(Running(s, i) * 10) + (s[i] as int - '0' as int))
  {
    assert s[..i + 1][..i] == s[..i];
    var before, after := Fields(s[..i]), Fields(s[..i + 1]);
    var last := before[|before| - 1];
    FieldsGrow(s, i + 1);
    if s[i] == ' ' {
      assert after == before + [""];
      assert after[..|after| - 1][|before| - 1] == Fields(s)[|before| - 1];
    } else {
      assert after[|after| - 1] == last + [s[i]];
      assert (last + [s[i]])[..|last|] == last;
    }
  }

  lemma FieldsLeft(s: string, i: nat)
    requires i <= |s|
    ensures FieldCount(s, i) <= |Fields(s)|
  {
    FieldsGrow(s, i);
  }

  // Reading on only adds fields and leaves the closed ones alone.
  lemma {:induction false} FieldsGrow(s: string, i: nat)
    requires i <= |s|
    ensures var part, all := Fields(s[..i]), Fields(s); |part| <= |all| && part[..|part| - 1] == all[..|part| - 1]
    decreases |s| - i
  {
    if i == |s| {
      assert s[..i] == s;
    } else {
      FieldsGrow(s, i + 1);
      assert s[..i + 1][..i] == s[..i];
    }
  }

  // ---------- the round trip ----------

  // The numbers printed and joined by single spaces.
  function Join(numbers: seq<nat>): string
    requires numbers != []
  {
    var last := Numeral(numbers[|numbers| - 1], 10);
    if |numbers| == 1 then last else Join(numbers[..|numbers| - 1]) + " " + last
  }

  lemma NextDigit(n: nat)
    requires n <= INT_MAX
    ensures Wrap(Wrap(n / 10 * 10) + (DIGITS[n % 10] as int - '0' as int)) == n
  {
    assert DIGITS[n % 10] as int - '0' as int == n % 10;
    assert 0 <= n / 10 * 10 <= n;
  }

  lemma {:induction false} ValueOfNumeral(n: nat)
    requires n <= INT_MAX
    ensures Value(Numeral(n, 10)) == n
    decreases n
  {
    hide Wrap;
    var s := Numeral(n, 10);
    NextDigit(n);
    if n >= 10 {
      ValueOfNumeral(n / 10);
      assert s[..|s| - 1] == Numeral(n / 10, 10);
    } else {
      assert s[..|s| - 1] == "";
    }
  }

  lemma ExtendedTwice(fields: seq<string>, x: string, y: string)
    requires fields != []
    ensures Extended(Extended(fields, x), y) == Extended(fields, x + y)
    ensures Extended(fields, "") == fields
  {
    var last := fields[|fields| - 1];
    assert (last + x) + y == last + (x + y) && last + "" == last;
  }

  lemma FieldsSnoc(s: string, c: char)
    requires c != ' '
    ensures Fields(s + [c]) == Extended(Fields(s), [c])
  {
    assert (s + [c])[..|s|] == s;
  }

  lemma {:induction false} FieldsOfAppend(s: string, t: string)
    requires ' ' !in t
    ensures Fields(s + t) == Extended(Fields(s), t)
  {
    hide Fields, Extended;
    if t == "" {
      assert s + t == s;
      ExtendedTwice(Fields(s), "", "");
    } else {
      var front, c := t[..|t| - 1], t[|t| - 1];
      assert c in t;
      FieldsOfAppend(s, front);
      FieldsSnoc(s + front, c);
      ExtendedTwice(Fields(s), front, [c]);
      assert t == front + [c] && s + t == (s + front) + [c];
    }
  }

  function Texts(numbers: seq<nat>): (texts: seq<string>)
    ensures |texts| == |numbers|
    ensures forall k | 0 <= k < |numbers| :: texts[k] == Numeral(numbers[k], 10)
  {
    if numbers == [] then [] else Texts(numbers[..|numbers| - 1]) + [Numeral(numbers[|numbers| - 1], 10)]
  }

  lemma NumeralSpaceFree(n: nat)
    ensures ' ' !in Numeral(n, 10) && !EndsInSpace(Numeral(n, 10))
  {
    NumeralDigits(n, 10);
    var text := Numeral(n, 10);
    assert text[|text| - 1] in text;
  }

  lemma {:induction false} FieldsOfJoin(numbers: seq<nat>)
    requires numbers != []
    ensures Fields(Join(numbers)) == Texts(numbers)
    ensures Join(numbers) != "" && !EndsInSpace(Join(numbers))
  {
    var text := Numeral(numbers[|numbers| - 1], 10);
    NumeralSpaceFree(numbers[|numbers| - 1]);
    assert "" + text == text;
    if |numbers| == 1 {
      FieldsOfAppend("", text);
      assert Texts(numbers[..0]) == [];
    } else {
      var front := numbers[..|numbers| - 1];
      FieldsOfJoin(front);
      var spaced := Join(front) + " ";
      assert spaced[..|spaced| - 1] == Join(front);
      FieldsOfAppend(spaced, text);
      assert Join(numbers) == spaced + text;
      assert (Texts(front) + [""])[..|front|] == Texts(front);
    }
  }

  /** Any non-empty list of non-negative ints, printed and joined by spaces, is counted and
      read back entry by entry, with every store inside the array. */
  method ReadBack(numbers: seq<nat>) returns (intArray: array<int>, overrun: bool)
    requires numbers != [] && forall k | 0 <= k < |numbers| :: numbers[k] <= INT_MAX
    ensures fresh(intArray) && intArray[..] == numbers && !overrun
  {
    hide Fields, Value, Join, Texts, Numeral, EndsInSpace;
    FieldsOfJoin(numbers);
    var s := Join(numbers);
    var count := CountIntegers(s);
    intArray := new int[count];
    overrun := ConvertStrToIntegers(s, intArray);
    forall k | 0 <= k < |numbers|
      ensures intArray[k] == numbers[k]
    {
      ValueOfNumeral(numbers[k]);
      assert Fields(s)[k] == Numeral(numbers[k], 10);
    }
  }
}
