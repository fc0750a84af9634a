/** How enumerators are numbered, by C++ and by a reader that may take the text of a value for
    another number, or for none and skip the enumerator. */
module EnumNumbering {
  import opened Bytes

  /** What follows a name: nothing, or `=` and an expression with the value C++ gives it. */
  datatype Value = Implicit | Given(text: string, cpp: int)

  datatype Entry = Entry(name: string, value: Value)

  /** One entry as written, with blanks before and after the name. The text of a value has its own. */
  datatype Written = Written(entry: Entry, b0: string, b1: string)

  /** The number a text is taken for, if it is taken for one. */
  type Reader = string -> Option<int>

  predicate Skipped(read: Reader, v: Value)
  {
    v.Given? && read(v.text).None?
  }

  /** The number of an entry that is not skipped, when the running number is `current`. */
  function NumberOf(read: Reader, e: Entry, current: int): int
    requires !Skipped(read, e.value)
  {
    if e.value.Implicit? then current else read(e.value.text).value
  }

  /** What one entry adds to the calls. */
  function Call(read: Reader, e: Entry, current: int): seq<(string, int)>
  {
    if Skipped(read, e.value) then [] else [(e.name, NumberOf(read, e, current))]
  }

  /** The running number after an entry; a skipped one leaves it alone. */
  function Following(read: Reader, e: Entry, current: int): int
  {
    if Skipped(read, e.value) then current else NumberOf(read, e, current) + 1
  }

  /** The calls for the first n entries. */
  function Numbered(read: Reader, ws: seq<Written>, n: nat): seq<(string, int)>
    requires n <= |ws|
  {
    if n == 0 then [] else Numbered(read, ws, n - 1) + Call(read, ws[n - 1].entry, NextNumber(read, ws, n - 1))
  }

  /** The running number after the first n entries. */
  function NextNumber(read: Reader, ws: seq<Written>, n: nat): int
    requires n <= |ws|
  {
    if n == 0 then 0 else Following(read, ws[n - 1].entry, NextNumber(read, ws, n - 1))
  }

  // -------------------------------------------------------------- C++ enumerators

  /** The value C++ gives to enumerator i: that of its expression, or one more than the
      enumerator before, starting from 0. */
  function CppValue(ws: seq<Written>, i: nat): int
    requires i < |ws|
  {
    match ws[i].entry.value
    case Given(_, cpp) => cpp
    case Implicit => if i == 0 then 0 else CppValue(ws, i - 1) + 1
  }

  function CppEntry(ws: seq<Written>, i: nat): (string, int)
    requires i < |ws|
  {
    (ws[i].entry.name, CppValue(ws, i))
  }

  /** The first n enumerators with their C++ values. */
  function Cpp(ws: seq<Written>, n: nat): (all: seq<(string, int)>)
    requires n <= |ws|
  {
    seq(n, i requires 0 <= i < n => CppEntry(ws, i))
  }

  /** The same without the enumerators the reader skips. */
  function CppList(read: Reader, ws: seq<Written>, n: nat): seq<(string, int)>
    requires n <= |ws|
  {
    if n == 0 then []
    else CppList(read, ws, n - 1) + if Skipped(read, ws[n - 1].entry.value) then [] else [CppEntry(ws, n - 1)]
  }

  /** The value of the last enumerator before i that is not skipped, or -1. */
  function LastValue(read: Reader, ws: seq<Written>, i: nat): int
    requires i <= |ws|
  {
    if i == 0 then -1
    else if Skipped(read, ws[i - 1].entry.value) then LastValue(read, ws, i - 1)
    else CppValue(ws, i - 1)
  }

  /** A text that is taken for a number is taken for its C++ value. */
  predicate ReadRight(read: Reader, v: Value)
  {
    v.Given? && read(v.text).Some? ==> read(v.text).value == v.cpp
  }

  /** An entry the reader numbers as C++ does: its text is read right, or it has none and, if it
      follows a skipped entry, that one has the value of the last one not skipped. */
  predicate InStepAt(read: Reader, ws: seq<Written>, i: nat)
    requires i < |ws|
  {
    && ReadRight(read, ws[i].entry.value)
    && (ws[i].entry.value.Implicit? && i > 0 && Skipped(read, ws[i - 1].entry.value) ==>
          CppValue(ws, i - 1) == LastValue(read, ws, i - 1))
  }

  predicate InStep(read: Reader, ws: seq<Written>, n: nat)
    requires n <= |ws|
  {
    forall i :: 0 <= i < n ==> InStepAt(read, ws, i)
  }

  lemma NumberedStep(read: Reader, ws: seq<Written>, n: nat)
    requires n < |ws|
    ensures Skipped(read, ws[n].entry.value) ==>
              Numbered(read, ws, n + 1) == Numbered(read, ws, n)
              && NextNumber(read, ws, n + 1) == NextNumber(read, ws, n)
    ensures !Skipped(read, ws[n].entry.value) ==>
              var number := NumberOf(read, ws[n].entry, NextNumber(read, ws, n));
              Numbered(read, ws, n + 1) == Numbered(read, ws, n) + [(ws[n].entry.name, number)]
              && NextNumber(read, ws, n + 1) == number + 1
  {
    AppendNothing(Numbered(read, ws, n));
  }

  lemma CppListStep(read: Reader, ws: seq<Written>, n: nat)
    requires n < |ws|
    ensures CppList(read, ws, n + 1) ==
            if Skipped(read, ws[n].entry.value) then CppList(read, ws, n) else CppList(read, ws, n) + [CppEntry(ws, n)]
  {
    AppendNothing(CppList(read, ws, n));
  }

  lemma InStepStep(read: Reader, ws: seq<Written>, n: nat)
    requires n < |ws|
    ensures InStep(read, ws, n + 1) == (InStep(read, ws, n) && InStepAt(read, ws, n))
  {
  }

  lemma NextInStep(read: Reader, ws: seq<Written>, i: nat)
    requires i < |ws| && !Skipped(read, ws[i].entry.value)
    ensures NumberOf(read, ws[i].entry, LastValue(read, ws, i) + 1) == CppValue(ws, i) <==> InStepAt(read, ws, i)
  {
  }

  /** What is proved of the first n entries: the reader's numbering is C++'s exactly when every entry
      is in step; then its running number is one more than the last value. */
  ghost predicate Agreement(read: Reader, ws: seq<Written>, n: nat)
    requires n <= |ws|
  {
    && (Numbered(read, ws, n) == CppList(read, ws, n) <==> InStep(read, ws, n))
    && (InStep(read, ws, n) ==> NextNumber(read, ws, n) == LastValue(read, ws, n) + 1)
  }

  lemma SkippedKeepsAgreement(read: Reader, ws: seq<Written>, n: nat)
    requires n < |ws| && Agreement(read, ws, n) && Skipped(read, ws[n].entry.value)
    ensures Agreement(read, ws, n + 1)
  {
    NumberedStep(read, ws, n);
    CppListStep(read, ws, n);
    InStepStep(read, ws, n);
  }

  lemma KeptKeepsAgreement(read: Reader, ws: seq<Written>, n: nat)
    requires n < |ws| && Agreement(read, ws, n) && !Skipped(read, ws[n].entry.value)
    ensures Agreement(read, ws, n + 1)
  {
    var e := ws[n].entry;
    NumberedStep(read, ws, n);
    CppListStep(read, ws, n);
    InStepStep(read, ws, n);
    NextInStep(read, ws, n);
    SnocEqual(Numbered(read, ws, n), CppList(read, ws, n),
              (e.name, NumberOf(read, e, NextNumber(read, ws, n))), CppEntry(ws, n));
  }

  lemma {:induction false} NumberedIsCpp(read: Reader, ws: seq<Written>, n: nat)
    requires n <= |ws|
    ensures Agreement(read, ws, n)
  {
    if n > 0 {
      NumberedIsCpp(read, ws, n - 1);
      if Skipped(read, ws[n - 1].entry.value) {
        SkippedKeepsAgreement(read, ws, n - 1);
      } else {
        KeptKeepsAgreement(read, ws, n - 1);
      }
    }
  }

  /** Every text is taken for a number, and for the right one. */
  predicate AllRead(read: Reader, ws: seq<Written>, n: nat)
    requires n <= |ws|
  {
    forall i :: 0 <= i < n ==> !Skipped(read, ws[i].entry.value) && ReadRight(read, ws[i].entry.value)
  }

  lemma CppStep(ws: seq<Written>, n: nat)
    requires n < |ws|
    ensures Cpp(ws, n + 1) == Cpp(ws, n) + [CppEntry(ws, n)]
  {
  }

  lemma AllReadStep(read: Reader, ws: seq<Written>, n: nat)
    requires n < |ws|
    ensures AllRead(read, ws, n + 1) ==
            (AllRead(read, ws, n) && !Skipped(read, ws[n].entry.value) && ReadRight(read, ws[n].entry.value))
  {
  }

  lemma {:induction false} NumberedLength(read: Reader, ws: seq<Written>, n: nat)
    requires n <= |ws|
    ensures |Numbered(read, ws, n)| <= n
  {
    if n > 0 {
      NumberedLength(read, ws, n - 1);
      NumberedStep(read, ws, n - 1);
    }
  }

  /** Nothing is skipped and all values are C++'s exactly when every text is read right. */
  lemma {:induction false} NumberedIsAll(read: Reader, ws: seq<Written>, n: nat)
    requires n <= |ws|
    ensures Numbered(read, ws, n) == Cpp(ws, n) <==> AllRead(read, ws, n)
    ensures AllRead(read, ws, n) ==> NextNumber(read, ws, n) == if n == 0 then 0 else CppValue(ws, n - 1) + 1
  {
    if n > 0 {
      var e := ws[n - 1].entry;
      NumberedIsAll(read, ws, n - 1);
      NumberedStep(read, ws, n - 1);
      AllReadStep(read, ws, n - 1);
      if Skipped(read, e.value) {
        NumberedLength(read, ws, n - 1);
      } else {
        CppStep(ws, n - 1);
        SnocEqual(Numbered(read, ws, n - 1), Cpp(ws, n - 1),
                  (e.name, NumberOf(read, e, NextNumber(read, ws, n - 1))), CppEntry(ws, n - 1));
      }
    }
  }

  lemma SnocEqual<T>(a: seq<T>, b: seq<T>, x: T, y: T)
    ensures a + [x] == b + [y] <==> a == b && x == y
  {
    if a + [x] == b + [y] {
      assert (a + [x])[|a|] == x && (b + [y])[|b|] == y;
      assert a == (a + [x])[..|a|] && b == (b + [y])[..|b|];
    }
  }

  lemma {:induction false} CppListAt(read: Reader, ws: seq<Written>, n: nat, i: nat)
    requires i < n <= |ws| && !Skipped(read, ws[i].entry.value)
    ensures CppEntry(ws, i) in CppList(read, ws, n)
  {
    CppListStep(read, ws, n - 1);
    if i < n - 1 {
      CppListAt(read, ws, n - 1, i);
    }
  }

  // --------------------------------------------------------------------- examples

  /** `A=5,B,C=A,D`: C++ gives D the value 6, the parser 7. */
  function OutOfStep(): seq<Written>
  {
    [Written(Entry("A", Given("5", 5)), "", ""), Written(Entry("B", Implicit), "", ""),
     Written(Entry("C", Given("A", 5)), "", ""), Written(Entry("D", Implicit), "", "")]
  }

  lemma OutOfStepNumbers(read: Reader)
    requires read("5") == Some(5) && read("A") == None
    ensures Numbered(read, OutOfStep(), 4) == [("A", 5), ("B", 6), ("D", 7)]
    ensures CppEntry(OutOfStep(), 3) == ("D", 6)
  {
    var ws := OutOfStep();
    NumberedStep(read, ws, 0);
    NumberedStep(read, ws, 1);
    NumberedStep(read, ws, 2);
    NumberedStep(read, ws, 3);
  }

  /** `A=0x10,B` */
  function Hexadecimal(): seq<Written>
  {
    [Written(Entry("A", Given("0x10", 16)), "", ""), Written(Entry("B", Implicit), "", "")]
  }

  lemma HexadecimalNumbers(read: Reader)
    requires read("0x10") == Some(0)
    ensures Numbered(read, Hexadecimal(), 2) == [("A", 0), ("B", 1)]
    ensures Cpp(Hexadecimal(), 2) == [("A", 16), ("B", 17)]
  {
    NumberedStep(read, Hexadecimal(), 0);
    NumberedStep(read, Hexadecimal(), 1);
  }
}
