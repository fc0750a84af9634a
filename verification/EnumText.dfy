/** The enum-text parser of src/include/keycap/root/utility/enum.hpp. */
module EnumText {
  import opened Bytes
  import opened Decimal
  import opened EnumNumbering

  predicate Blank(c: char)
  {
    c == ' ' || c == '\t'
  }

  function RemoveWhitespaces(s: string): string
  {
    if s == "" then "" else (if Blank(s[0]) then "" else [s[0]]) + RemoveWhitespaces(s[1..])
  }

  /** The index of the first c, or the length. */
  function Find(s: string, c: char): (i: nat)
    ensures i <= |s|
  {
    if s == "" || s[0] == c then 0 else 1 + Find(s[1..], c)
  }

  /** The text up to the first comma without its blanks, and what follows that comma. */
  function ExtractEntry(values: string): (r: (string, string))
    ensures values != "" ==> |r.1| < |values|
  {
    var i := Find(values, ',');
    (RemoveWhitespaces(values[..i]), if i < |values| then values[i + 1..] else "")
  }

  /** What precedes the first '=', and what follows it if there is one. */
  function ExtractValue(entry: string): (string, Option<string>)
  {
    var i := Find(entry, '=');
    if i < |entry| then (entry[..i], Some(entry[i + 1..])) else (entry, None)
  }

  function DigitsPrefix(s: string): (n: nat)
    ensures n <= |s|
  {
    if s == "" || !('0' <= s[0] <= '9') then 0 else 1 + DigitsPrefix(s[1..])
  }

  lemma {:induction false} DigitsPrefixIsDigits(s: string)
    ensures IsNumeral(s[..DigitsPrefix(s)])
  {
    if s != "" && '0' <= s[0] <= '9' {
      DigitsPrefixIsDigits(s[1..]);
    }
  }

  /** Stream extraction of an int32: an optional sign and the digits after it, the rest of the
      text being ignored; no digits or a number out of range fail. */
  function Convert(s: string): Option<int>
  {
    var signed := s != "" && (s[0] == '-' || s[0] == '+');
    var body := if signed then s[1..] else s;
    var n := DigitsPrefix(body);
    DigitsPrefixIsDigits(body);
    if n == 0 then None
    else
      var magnitude: int := NumeralValue(body[..n]);
      var v := if signed && s[0] == '-' then -magnitude else magnitude;
      if -0x8000_0000 <= v < 0x8000_0000 then Some(v) else None
  }

  /** One turn: the callback's call, if any, and the number for the next entry. An entry whose
      value cannot be converted is skipped and does not advance the numbering. */
  function Turn(entry: string, current: int): (seq<(string, int)>, int)
  {
    match ExtractValue(entry)
    case (name, None) => ([(name, current)], current + 1)
    case (name, Some(text)) =>
      match Convert(text)
      case None => ([], current)
      case Some(number) => ([(name, number)], number + 1)
  }

  /** The entries of the text, blanks removed. */
  function Tokens(values: string): seq<string>
    decreases |values|
  {
    if values == "" then []
    else
      var (entry, rest) := ExtractEntry(values);
      [entry] + Tokens(rest)
  }

  function Calls(tokens: seq<string>, current: int): seq<(string, int)>
    decreases |tokens|
  {
    if tokens == [] then []
    else
      var (call, next) := Turn(tokens[0], current);
      call + Calls(tokens[1..], next)
  }

  /** The calls of the callback, in order. */
  function Entries(values: string): seq<(string, int)>
  {
    Calls(Tokens(values), 0)
  }

  lemma CallsCons(token: string, tokens: seq<string>, current: int)
    ensures Calls([token] + tokens, current) == Turn(token, current).0 + Calls(tokens, Turn(token, current).1)
  {
    assert ([token] + tokens)[1..] == tokens;
  }

  method DoForEachEntry(values: string) returns (calls: seq<(string, int)>)
    ensures calls == Entries(values)
  {
    calls := [];
    var text, currentValue := values, 0;
    while text != ""
      invariant calls + Calls(Tokens(text), currentValue) == Entries(values)
      decreases |text|
    {
      var (entry, rest) := ExtractEntry(text);
      CallsCons(entry, Tokens(rest), currentValue);
      Associate(calls, Turn(entry, currentValue).0, Calls(Tokens(rest), Turn(entry, currentValue).1));
      text := rest;
      calls, currentValue := HandleEntry(entry, currentValue, calls);
    }
  }

  /** The body of the loop after the entry has been cut off. */
  method HandleEntry(entry: string, current: int, calls: seq<(string, int)>)
    returns (calls': seq<(string, int)>, currentValue: int)
    ensures calls' == calls + Turn(entry, current).0 && currentValue == Turn(entry, current).1
  {
    calls', currentValue := calls, current;
    var (name, value) := ExtractValue(entry);
    if value.Some? {
      var intValue := Convert(value.value);
      if intValue.None? {
        return;
      }
      currentValue := intValue.value;
    }
    calls' := calls + [(name, currentValue)];
    currentValue := currentValue + 1;
  }

  // --------------------------------------------------------------------- the tables

  function NameValueMap(calls: seq<(string, int)>): map<string, int>
  {
    if calls == [] then map[]
    else NameValueMap(calls[..|calls| - 1])[calls[|calls| - 1].0 := calls[|calls| - 1].1]
  }

  function ValueNameMap(calls: seq<(string, int)>): map<int, string>
  {
    if calls == [] then map[]
    else
      var m, last := ValueNameMap(calls[..|calls| - 1]), calls[|calls| - 1];
      if last.1 in m then m else m[last.1 := last.0]
  }

  function Vector(calls: seq<(string, int)>): seq<int>
  {
    if calls == [] then []
    else
      var v, last := Vector(calls[..|calls| - 1]), calls[|calls| - 1];
      if last.1 in v then v else v + [last.1]
  }

  method MakeNameValueMap(values: string) returns (m: map<string, int>)
    ensures m == NameValueMap(Entries(values))
  {
    var calls := DoForEachEntry(values);
    m := map[];
    for i := 0 to |calls|
      invariant m == NameValueMap(calls[..i])
    {
      InitOfTake(calls, i);
      m := m[calls[i].0 := calls[i].1];
    }
    assert calls[..|calls|] == calls;
  }

  method MakeValueNameMap(values: string) returns (m: map<int, string>)
    ensures m == ValueNameMap(Entries(values))
  {
    var calls := DoForEachEntry(values);
    m := map[];
    for i := 0 to |calls|
      invariant m == ValueNameMap(calls[..i])
    {
      InitOfTake(calls, i);
      if calls[i].1 !in m {
        m := m[calls[i].1 := calls[i].0];
      }
    }
    assert calls[..|calls|] == calls;
  }

  method MakeVector(values: string) returns (v: seq<int>)
    ensures v == Vector(Entries(values))
  {
    var calls := DoForEachEntry(values);
    v := [];
    for i := 0 to |calls|
      invariant v == Vector(calls[..i])
    {
      InitOfTake(calls, i);
      if calls[i].1 !in v {
        v := v + [calls[i].1];
      }
    }
    assert calls[..|calls|] == calls;
  }

  /** The value of a name is that of its last entry. */
  lemma {:induction false} NameValueMapMeaning(calls: seq<(string, int)>, name: string)
    ensures name in NameValueMap(calls) <==> exists i :: 0 <= i < |calls| && calls[i].0 == name
    ensures forall i :: 0 <= i < |calls| && calls[i].0 == name
                        && (forall k :: i < k < |calls| ==> calls[k].0 != name) ==>
              NameValueMap(calls)[name] == calls[i].1
  {
    if calls != [] {
      NameValueMapMeaning(calls[..|calls| - 1], name);
      assert calls[|calls| - 1].0 == name || NameValueMap(calls).Keys >= NameValueMap(calls[..|calls| - 1]).Keys;
    }
  }

  /** The name of a value is that of its first entry. */
  lemma {:induction false} ValueNameMapMeaning(calls: seq<(string, int)>, value: int)
    ensures value in ValueNameMap(calls) <==> exists i :: 0 <= i < |calls| && calls[i].1 == value
    ensures forall i :: 0 <= i < |calls| && calls[i].1 == value && (forall k :: 0 <= k < i ==> calls[k].1 != value) ==>
              ValueNameMap(calls)[value] == calls[i].0
  {
    if calls != [] {
      var before := calls[..|calls| - 1];
      ValueNameMapMeaning(before, value);
      assert calls == before + [calls[|calls| - 1]];
      forall i | 0 <= i < |calls| && calls[i].1 == value && (forall k :: 0 <= k < i ==> calls[k].1 != value)
        ensures ValueNameMap(calls)[value] == calls[i].0
      {
        if i < |before| {
          assert before[i] == calls[i] && forall k :: 0 <= k < i ==> before[k] == calls[k];
        }
      }
    }
  }

  ghost predicate DistinctNames(calls: seq<(string, int)>)
  {
    forall i, j :: 0 <= i < j < |calls| ==> calls[i].0 != calls[j].0
  }

  /** The first call with the value. */
  lemma {:induction false} FirstWith(calls: seq<(string, int)>, value: int) returns (i: nat)
    requires exists k :: 0 <= k < |calls| && calls[k].1 == value
    ensures i < |calls| && calls[i].1 == value && forall k :: 0 <= k < i ==> calls[k].1 != value
  {
    if calls[0].1 == value {
      return 0;
    }
    i := FirstWith(calls[1..], value);
    i := i + 1;
    assert forall k :: 0 < k < i ==> calls[k] == calls[1..][k - 1];
  }

  /** With distinct names, looking up the name of a value and the value of that name gives the
      value back, and every name has its own entry's value. */
  lemma ValueOfNameOfValue(calls: seq<(string, int)>, value: int)
    requires DistinctNames(calls) && value in ValueNameMap(calls)
    ensures ValueNameMap(calls)[value] in NameValueMap(calls)
    ensures NameValueMap(calls)[ValueNameMap(calls)[value]] == value
  {
    ValueNameMapMeaning(calls, value);
    var i := FirstWith(calls, value);
    NameHasItsValue(calls, i);
  }

  lemma NameHasItsValue(calls: seq<(string, int)>, i: nat)
    requires DistinctNames(calls) && i < |calls|
    ensures calls[i].0 in NameValueMap(calls) && NameValueMap(calls)[calls[i].0] == calls[i].1
  {
    NameValueMapMeaning(calls, calls[i].0);
    assert calls[i].0 == calls[i].0 && forall k :: i < k < |calls| ==> calls[k].0 != calls[i].0;
  }

  /** Whether a comes up before b among the values. */
  ghost predicate EarlierValue(calls: seq<(string, int)>, a: int, b: int)
  {
    exists i :: 0 <= i < |calls| && calls[i].1 == a && forall k :: 0 <= k <= i ==> calls[k].1 != b
  }

  lemma EarlierInLonger(calls: seq<(string, int)>, a: int, b: int)
    requires calls != [] && EarlierValue(calls[..|calls| - 1], a, b)
    ensures EarlierValue(calls, a, b)
  {
    var t := calls[..|calls| - 1];
    var i :| 0 <= i < |t| && t[i].1 == a && forall k :: 0 <= k <= i ==> t[k].1 != b;
    assert calls[i].1 == a && forall k :: 0 <= k <= i ==> calls[k] == t[k];
  }

  lemma LastIsLatest(calls: seq<(string, int)>, a: int)
    requires calls != []
    requires var before := calls[..|calls| - 1];
             a in ValueNameMap(before) && calls[|calls| - 1].1 !in ValueNameMap(before)
    ensures EarlierValue(calls, a, calls[|calls| - 1].1)
  {
    var before, b := calls[..|calls| - 1], calls[|calls| - 1].1;
    ValueNameMapMeaning(before, a);
    ValueNameMapMeaning(before, b);
    var k :| 0 <= k < |before| && before[k].1 == a;
    assert calls[k].1 == a && forall m :: 0 <= m <= k ==> calls[m] == before[m];
  }

  /** The vector lists exactly the keys of the value map. */
  lemma {:induction false} VectorIsKeys(calls: seq<(string, int)>, v: int)
    ensures v in Vector(calls) <==> v in ValueNameMap(calls)
  {
    if calls != [] {
      VectorIsKeys(calls[..|calls| - 1], v);
      VectorIsKeys(calls[..|calls| - 1], calls[|calls| - 1].1);
    }
  }

  /** The vector lists each of its values once, in the order in which they first occur. */
  lemma {:induction false} VectorMeaning(calls: seq<(string, int)>)
    ensures forall i, j :: 0 <= i < j < |Vector(calls)| ==>
              Vector(calls)[i] != Vector(calls)[j] && EarlierValue(calls, Vector(calls)[i], Vector(calls)[j])
  {
    if calls != [] {
      var before, last := calls[..|calls| - 1], calls[|calls| - 1].1;
      VectorMeaning(before);
      var u := Vector(before);
      forall i, j | 0 <= i < j < |Vector(calls)|
        ensures Vector(calls)[i] != Vector(calls)[j] && EarlierValue(calls, Vector(calls)[i], Vector(calls)[j])
      {
        if j < |u| {
          EarlierInLonger(calls, u[i], u[j]);
        } else {
          VectorIsKeys(before, u[i]);
          VectorIsKeys(before, last);
          LastIsLatest(calls, u[i]);
        }
      }
    }
  }

  // ------------------------------------------------------------------ printed enums

  predicate AllBlank(s: string)
  {
    forall i :: 0 <= i < |s| ==> s[i] == ' ' || s[i] == '\t'
  }

  predicate IdentifierCharacter(c: char)
  {
    'a' <= c <= 'z' || 'A' <= c <= 'Z' || '0' <= c <= '9' || c == '_'
  }

  predicate IsName(s: string)
  {
    && s != ""
    && !('0' <= s[0] <= '9')
    && forall i :: 0 <= i < |s| ==> IdentifierCharacter(s[i])
  }

  predicate WellFormed(w: Written)
  {
    && IsName(w.entry.name)
    && (w.entry.value.Given? ==> ',' !in w.entry.value.text)
    && AllBlank(w.b0) && AllBlank(w.b1)
  }

  predicate AllWellFormed(ws: seq<Written>)
  {
    ws == [] || (WellFormed(ws[0]) && AllWellFormed(ws[1..]))
  }

  function Numeral(v: int): string
  {
    if v < 0 then "-" + ToString(-v) else ToString(v)
  }

  function Print(w: Written): string
  {
    w.b0 + w.entry.name + w.b1 + if w.entry.value.Implicit? then "" else "=" + w.entry.value.text
  }

  /** Entries separated by commas, and a tail. */
  function PrintAll(ws: seq<Written>, tail: string): string
  {
    if ws == [] then tail
    else Print(ws[0]) + if |ws| == 1 then tail else "," + PrintAll(ws[1..], tail)
  }

  /** The number the parser takes a text for, if it takes it for one. */
  function ReadNumber(text: string): Option<int>
  {
    Convert(RemoveWhitespaces(text))
  }

  // ------------------------------------------------------------- reading them back

  lemma {:induction false} FindSkips(s: string, tail: string, c: char)
    requires c !in s
    requires tail == "" || tail[0] == c
    ensures Find(s + tail, c) == |s|
  {
    if s == "" {
      assert s + tail == tail;
    } else {
      FindSkips(s[1..], tail, c);
      assert (s + tail)[1..] == s[1..] + tail;
    }
  }

  lemma RemoveFirst(s: string)
    requires s != ""
    ensures RemoveWhitespaces(s) == (if Blank(s[0]) then "" else [s[0]]) + RemoveWhitespaces(s[1..])
  {
  }

  lemma {:induction false} RemoveConcat(a: string, b: string)
    ensures RemoveWhitespaces(a + b) == RemoveWhitespaces(a) + RemoveWhitespaces(b)
  {
    if a == "" {
      assert a + b == b;
    } else {
      RemoveConcat(a[1..], b);
      RemoveFirst(a);
      RemoveFirst(a + b);
      assert (a + b)[1..] == a[1..] + b;
      Associate(if Blank(a[0]) then "" else [a[0]], RemoveWhitespaces(a[1..]), RemoveWhitespaces(b));
    }
  }

  lemma {:induction false} RemoveBlanks(s: string)
    requires AllBlank(s)
    ensures RemoveWhitespaces(s) == ""
  {
    if s != "" {
      RemoveBlanks(s[1..]);
    }
  }

  lemma {:induction false} RemoveNothing(s: string)
    requires forall i :: 0 <= i < |s| ==> !Blank(s[i])
    ensures RemoveWhitespaces(s) == s
  {
    if s != "" {
      RemoveNothing(s[1..]);
      assert [s[0]] + s[1..] == s;
    }
  }

  /** What is left has no blanks, and is the text itself if that had none. */
  lemma {:induction false} NoBlanksLeft(s: string)
    ensures ' ' !in RemoveWhitespaces(s) && '\t' !in RemoveWhitespaces(s)
    ensures ' ' !in s && '\t' !in s ==> RemoveWhitespaces(s) == s
  {
    if s != "" {
      NoBlanksLeft(s[1..]);
      assert s == [s[0]] + s[1..];
    }
  }

  // ------------------------------------------------------------ any text whatever

  /** The text is cut at its commas, each piece losing its blanks; an empty last piece is none. */
  lemma CutAtCommas(piece: string, rest: string)
    requires ',' !in piece
    ensures Tokens("") == []
    ensures piece != "" ==> Tokens(piece) == [RemoveWhitespaces(piece)]
    ensures Tokens(piece + ("," + rest)) == [RemoveWhitespaces(piece)] + Tokens(rest)
  {
    FindSkips(piece, "", ',');
    FindSkips(piece, "," + rest, ',');
    assert piece + "" == piece && piece[..|piece|] == piece;
    var text := piece + ("," + rest);
    assert text[..|piece|] == piece && text[|piece| + 1..] == rest;
  }

  /** An entry is named up to its first '='; what follows decides its number or skips it. */
  lemma TurnOfEntry(name: string, text: string, current: int)
    requires '=' !in name
    ensures Turn(name, current) == ([(name, current)], current + 1)
    ensures Turn(name + ("=" + text), current) ==
            if Convert(text).None? then ([], current)
            else ([(name, Convert(text).value)], Convert(text).value + 1)
  {
    FindSkips(name, "", '=');
    FindSkips(name, "=" + text, '=');
    assert name + "" == name;
    var entry := name + ("=" + text);
    assert entry[..|name|] == name && entry[|name| + 1..] == text;
  }

  predicate StartsWithDigit(s: string)
  {
    s != "" && '0' <= s[0] <= '9'
  }

  lemma {:induction false} DigitsEnd(digits: string, rest: string)
    requires IsNumeral(digits) && !StartsWithDigit(rest)
    ensures DigitsPrefix(digits + rest) == |digits|
  {
    if digits == "" {
      assert digits + rest == rest;
    } else {
      DigitsEnd(digits[1..], rest);
      assert (digits + rest)[1..] == digits[1..] + rest;
    }
  }

  /** Conversion takes an optional sign and the digits after it, whatever follows; the number must be
      within int32. */
  lemma ConvertSigned(sign: string, digits: string, rest: string, v: int)
    requires sign == "" || sign == "+" || sign == "-"
    requires IsNumeral(digits) && digits != "" && !StartsWithDigit(rest)
    requires v == if sign == "-" then -(NumeralValue(digits) as int) else NumeralValue(digits)
    ensures Convert(sign + (digits + rest)) == if -0x8000_0000 <= v < 0x8000_0000 then Some(v) else None
  {
    var s, body := sign + (digits + rest), digits + rest;
    DigitsEnd(digits, rest);
    assert body[..|digits|] == digits && body[0] == digits[0];
    if sign == "" {
      assert s == body;
    } else {
      assert s[0] == sign[0] && s[1..] == body;
    }
  }

  /** Without a digit there it fails. */
  lemma ConvertFails(sign: string, rest: string)
    requires sign == "" || sign == "+" || sign == "-"
    requires !StartsWithDigit(rest) && (sign == "" && rest != "" ==> rest[0] != '+' && rest[0] != '-')
    ensures Convert(sign + rest) == None
  {
    var s := sign + rest;
    if sign == "" {
      assert s == rest;
    } else {
      assert s[0] == sign[0] && s[1..] == rest;
    }
  }

  /** The entry without blanks. */
  function Compact(e: Entry): string
  {
    if e.value.Implicit? then e.name else e.name + ("=" + RemoveWhitespaces(e.value.text))
  }

  lemma RemoveSurrounding(before: string, core: string, after: string)
    requires AllBlank(before) && AllBlank(after)
    requires forall i :: 0 <= i < |core| ==> !Blank(core[i])
    ensures RemoveWhitespaces(before + core + after) == core
  {
    RemoveConcat(before + core, after);
    RemoveConcat(before, core);
    RemoveBlanks(before);
    RemoveBlanks(after);
    RemoveNothing(core);
    assert "" + core == core && core + "" == core;
  }

  lemma PrintedWithoutBlanks(w: Written)
    requires WellFormed(w)
    ensures RemoveWhitespaces(Print(w)) == Compact(w.entry)
  {
    var left := w.b0 + w.entry.name + w.b1;
    RemoveSurrounding(w.b0, w.entry.name, w.b1);
    if w.entry.value.Implicit? {
      assert left + "" == left;
    } else {
      RemoveNothing("=");
      RemoveConcat("=", w.entry.value.text);
      RemoveConcat(left, "=" + w.entry.value.text);
    }
  }

  lemma PrintHasNoComma(w: Written)
    requires WellFormed(w)
    ensures ',' !in Print(w) && Print(w) != ""
  {
  }

  lemma {:induction false} WholePrefix(s: string)
    requires IsNumeral(s)
    ensures DigitsPrefix(s) == |s|
  {
    if s != "" {
      WholePrefix(s[1..]);
    }
  }

  lemma ConvertUnsigned(digits: string, v: int)
    requires IsNumeral(digits) && digits != "" && NumeralValue(digits) == v < 0x8000_0000
    ensures Convert(digits) == Some(v)
  {
    WholePrefix(digits);
    assert digits[..|digits|] == digits;
  }

  lemma ConvertNegative(digits: string, v: int)
    requires IsNumeral(digits) && digits != "" && NumeralValue(digits) == -v <= 0x8000_0000
    ensures Convert("-" + digits) == Some(v)
  {
    WholePrefix(digits);
    assert ("-" + digits)[1..] == digits && digits[..|digits|] == digits;
  }

  lemma NumeralOf(v: int) returns (digits: string)
    ensures IsNumeral(digits) && digits != "" && NumeralValue(digits) == (if v < 0 then -v else v)
    ensures Numeral(v) == if v < 0 then "-" + digits else digits
  {
    digits := ToString(if v < 0 then -v else v);
    ToStringValue(if v < 0 then -v else v);
  }

  lemma ConvertDecimal(v: int)
    requires -0x8000_0000 <= v < 0x8000_0000
    ensures Convert(Numeral(v)) == Some(v)
  {
    var digits := NumeralOf(v);
    if v < 0 {
      ConvertNegative(digits, v);
    } else {
      ConvertUnsigned(digits, v);
    }
  }

  lemma TurnOfCompact(w: Written, current: int)
    requires WellFormed(w)
    ensures Turn(Compact(w.entry), current) ==
            (Call(ReadNumber, w.entry, current), Following(ReadNumber, w.entry, current))
  {
    var name := w.entry.name;
    if w.entry.value.Implicit? {
      FindSkips(name, "", '=');
      assert name + "" == name;
    } else {
      var text := RemoveWhitespaces(w.entry.value.text);
      FindSkips(name, "=" + text, '=');
      assert Compact(w.entry)[..|name|] == name && Compact(w.entry)[|name| + 1..] == text;
    }
  }

  /** What follows the first character, if any. */
  function AfterComma(tail: string): string
  {
    if tail == "" then "" else tail[1..]
  }

  lemma CutOffPrinted(w: Written, tail: string)
    requires WellFormed(w) && (tail == "" || tail[0] == ',')
    ensures Print(w) + tail != "" && ExtractEntry(Print(w) + tail) == (Compact(w.entry), AfterComma(tail))
  {
    var text := Print(w) + tail;
    PrintHasNoComma(w);
    FindSkips(Print(w), tail, ',');
    PrintedWithoutBlanks(w);
    assert text[..|Print(w)|] == Print(w);
    assert tail != "" ==> text[|Print(w)| + 1..] == tail[1..];
  }

  lemma FirstToken(w: Written, tail: string)
    requires WellFormed(w) && (tail == "" || tail[0] == ',')
    ensures Tokens(Print(w) + tail) == [Compact(w.entry)] + Tokens(AfterComma(tail))
  {
    CutOffPrinted(w, tail);
  }

  function Compacts(ws: seq<Written>): (r: seq<string>)
    ensures |r| == |ws|
  {
    seq(|ws|, i requires 0 <= i < |ws| => Compact(ws[i].entry))
  }

  lemma CompactsCons(ws: seq<Written>)
    requires ws != []
    ensures Compacts(ws) == [Compact(ws[0].entry)] + Compacts(ws[1..])
  {
  }

  lemma CompactsSnoc(ws: seq<Written>, n: nat)
    requires n < |ws|
    ensures Compacts(ws[..n + 1]) == Compacts(ws[..n]) + [Compact(ws[n].entry)]
  {
  }

  lemma {:induction false} PrintedTokens(ws: seq<Written>, tail: string)
    requires ws != [] && AllWellFormed(ws)
    requires tail == "" || tail[0] == ','
    ensures Tokens(PrintAll(ws, tail)) == Compacts(ws) + Tokens(AfterComma(tail))
    decreases |ws|
  {
    CompactsCons(ws);
    if |ws| == 1 {
      OnlyToken(ws, tail);
      AppendNothing([Compact(ws[0].entry)]);
    } else {
      MoreTokens(ws, tail);
      PrintedTokens(ws[1..], tail);
      Associate([Compact(ws[0].entry)], Compacts(ws[1..]), Tokens(AfterComma(tail)));
    }
  }

  lemma OnlyToken(ws: seq<Written>, tail: string)
    requires |ws| == 1 && WellFormed(ws[0])
    requires tail == "" || tail[0] == ','
    ensures Tokens(PrintAll(ws, tail)) == [Compact(ws[0].entry)] + Tokens(AfterComma(tail))
  {
    FirstToken(ws[0], tail);
  }

  lemma MoreTokens(ws: seq<Written>, tail: string)
    requires |ws| > 1 && WellFormed(ws[0])
    ensures Tokens(PrintAll(ws, tail)) == [Compact(ws[0].entry)] + Tokens(PrintAll(ws[1..], tail))
  {
    var more := PrintAll(ws[1..], tail);
    FirstToken(ws[0], "," + more);
    assert AfterComma("," + more) == more;
  }

  lemma {:induction false} WellFormedAt(ws: seq<Written>, i: nat)
    requires AllWellFormed(ws) && i < |ws|
    ensures WellFormed(ws[i])
  {
    if i > 0 {
      WellFormedAt(ws[1..], i - 1);
    }
  }

  lemma {:induction false} CallsOfCompacts(ws: seq<Written>, n: nat, more: seq<string>)
    requires AllWellFormed(ws) && n <= |ws|
    ensures Calls(Compacts(ws[..n]) + more, 0) ==
            Numbered(ReadNumber, ws, n) + Calls(more, NextNumber(ReadNumber, ws, n))
  {
    if n == 0 {
      assert [] + more == more && Compacts(ws[..0]) == [];
    } else {
      var e, current := ws[n - 1].entry, NextNumber(ReadNumber, ws, n - 1);
      CompactsSnoc(ws, n - 1);
      Associate(Compacts(ws[..n - 1]), [Compact(e)], more);
      CallsOfCompacts(ws, n - 1, [Compact(e)] + more);
      WellFormedAt(ws, n - 1);
      TurnOfCompact(ws[n - 1], current);
      CallsCons(Compact(e), more, current);
      Associate(Numbered(ReadNumber, ws, n - 1), Call(ReadNumber, e, current),
                Calls(more, NextNumber(ReadNumber, ws, n)));
    }
  }

  lemma PrintedEntries(ws: seq<Written>, tail: string)
    requires ws != [] && AllWellFormed(ws)
    requires tail == "" || tail[0] == ','
    ensures Entries(PrintAll(ws, tail)) ==
            Numbered(ReadNumber, ws, |ws|) + Calls(Tokens(AfterComma(tail)), NextNumber(ReadNumber, ws, |ws|))
  {
    PrintedTokens(ws, tail);
    CallsOfCompacts(ws, |ws|, Tokens(AfterComma(tail)));
    assert ws[..|ws|] == ws;
  }

  /** Any nonempty list of well-formed entries, with any blanks between the tokens and with or
      without a final comma, is read as those of its entries whose values are taken for
      numbers or left out, in order. */
  lemma ParsesPrinted(ws: seq<Written>, tail: string)
    requires ws != [] && AllWellFormed(ws)
    requires tail == "" || tail == ","
    ensures Entries(PrintAll(ws, tail)) == Numbered(ReadNumber, ws, |ws|)
  {
    PrintedEntries(ws, tail);
    assert AfterComma(tail) == "" && Tokens("") == [] && Calls([], NextNumber(ReadNumber, ws, |ws|)) == [];
    AppendNothing(Numbered(ReadNumber, ws, |ws|));
  }

  /** They get their C++ values exactly when every entry is in step. */
  lemma ParsesWithCppNumbering(ws: seq<Written>, tail: string)
    requires ws != [] && AllWellFormed(ws)
    requires tail == "" || tail == ","
    ensures Entries(PrintAll(ws, tail)) == CppList(ReadNumber, ws, |ws|) <==> InStep(ReadNumber, ws, |ws|)
  {
    ParsesPrinted(ws, tail);
    NumberedIsCpp(ReadNumber, ws, |ws|);
  }

  /** All enumerators are read, with their C++ values, exactly when every text given as a value is
      taken for a number, and for its value. */
  lemma ParsesEveryEnumerator(ws: seq<Written>, tail: string)
    requires ws != [] && AllWellFormed(ws)
    requires tail == "" || tail == ","
    ensures Entries(PrintAll(ws, tail)) == Cpp(ws, |ws|) <==> AllRead(ReadNumber, ws, |ws|)
  {
    ParsesPrinted(ws, tail);
    NumberedIsAll(ReadNumber, ws, |ws|);
  }

  /** No value given, or a decimal numeral within int32, with blanks anywhere. */
  predicate PlainDecimal(v: Value)
  {
    v.Given? ==> -0x8000_0000 <= v.cpp < 0x8000_0000 && RemoveWhitespaces(v.text) == Numeral(v.cpp)
  }

  /** So enums whose values are plain decimals are read exactly. */
  lemma ParsesDecimals(ws: seq<Written>, tail: string)
    requires ws != [] && AllWellFormed(ws)
    requires tail == "" || tail == ","
    requires forall i :: 0 <= i < |ws| ==> PlainDecimal(ws[i].entry.value)
    ensures Entries(PrintAll(ws, tail)) == Cpp(ws, |ws|)
  {
    forall i | 0 <= i < |ws|
      ensures !Skipped(ReadNumber, ws[i].entry.value) && ReadRight(ReadNumber, ws[i].entry.value)
    {
      if ws[i].entry.value.Given? {
        ConvertDecimal(ws[i].entry.value.cpp);
      }
    }
    ParsesEveryEnumerator(ws, tail);
  }

  /** C++'s rule for a value that is the name of an earlier enumerator. */
  predicate AliasesResolved(ws: seq<Written>)
  {
    forall i, k :: 0 <= k < i < |ws| && ws[i].entry.value.Given?
                   && RemoveWhitespaces(ws[i].entry.value.text) == ws[k].entry.name ==>
      ws[i].entry.value.cpp == CppValue(ws, k)
  }

  lemma NumberTexts()
    ensures ReadNumber("5") == Some(5) && ReadNumber("A") == None && ReadNumber("0x10") == Some(0)
  {
    ConvertDecimal(5);
    assert Numeral(5) == "5";
    RemoveNothing("5");
    RemoveNothing("A");
    RemoveNothing("0x10");
    assert "0x10"[1..][0] == 'x' && "0x10"[..1] == "0";
    assert NumeralValue("0") == 0;
  }

  lemma OutOfStepIsWellFormed()
    ensures AllWellFormed(OutOfStep()) && AliasesResolved(OutOfStep())
  {
    var ws := OutOfStep();
    assert ws[1..][1..] == ws[2..] && ws[2..][1..] == ws[3..] && ws[3..][1..] == [];
    assert AllWellFormed(ws[3..]);
    assert AllWellFormed(ws[2..]);
    assert AllWellFormed(ws[1..]);
    RemoveNothing("5");
    RemoveNothing("A");
  }

  lemma AliasesCanFallOutOfStep()
    ensures AllWellFormed(OutOfStep()) && AliasesResolved(OutOfStep())
    ensures CppEntry(OutOfStep(), 3) == ("D", 6)
    ensures Entries(PrintAll(OutOfStep(), "")) == [("A", 5), ("B", 6), ("D", 7)]
  {
    var ws := OutOfStep();
    OutOfStepIsWellFormed();
    NumberTexts();
    OutOfStepNumbers(ReadNumber);
    ParsesPrinted(ws, "");
  }

  /** C++ gives the values 16 and 17, the parser 0 and 1: it stops at the x. */
  lemma HexadecimalIsMisread()
    ensures AllWellFormed(Hexadecimal())
    ensures Cpp(Hexadecimal(), 2) == [("A", 16), ("B", 17)]
    ensures Entries(PrintAll(Hexadecimal(), "")) == [("A", 0), ("B", 1)]
  {
    var ws := Hexadecimal();
    NumberTexts();
    assert ws[1..][1..] == [] && AllWellFormed(ws[1..]);
    HexadecimalNumbers(ReadNumber);
    ParsesPrinted(ws, "");
  }

  /** Blanks after a final comma are read as one more entry with an empty name: they must be
      absent for the reading to be that of the entries alone. The macro drops trailing blanks
      when it turns its arguments into a string, so this is about direct calls only. */
  lemma BlanksAfterFinalComma(ws: seq<Written>, blanks: string)
    requires ws != [] && AllWellFormed(ws)
    requires AllBlank(blanks)
    ensures var calls := Entries(PrintAll(ws, "," + blanks));
            (calls == Numbered(ReadNumber, ws, |ws|) <==> blanks == "")
            && (blanks != "" ==> calls == Numbered(ReadNumber, ws, |ws|) + [("", NextNumber(ReadNumber, ws, |ws|))])
  {
    if blanks == "" {
      ParsesPrinted(ws, ",");
      assert "," + blanks == ",";
    } else {
      PrintedEntries(ws, "," + blanks);
      assert AfterComma("," + blanks) == blanks;
      BlankEntry(blanks, NextNumber(ReadNumber, ws, |ws|));
    }
  }

  lemma BlankEntry(blanks: string, n: int)
    requires AllBlank(blanks) && blanks != ""
    ensures Calls(Tokens(blanks), n) == [("", n)]
  {
    FindSkips(blanks, "", ',');
    assert blanks + "" == blanks && blanks[..|blanks|] == blanks;
    RemoveBlanks(blanks);
    assert Tokens(blanks) == [""] + [];
    CallsCons("", [], n);
  }

  /** The tables of a printed enum all of whose entries are in step: with distinct names every
      enumerator that is not skipped maps to its C++ value, and that value maps to a name. */
  lemma TablesOfPrintedEnum(ws: seq<Written>, tail: string, i: nat)
    requires tail == "" || tail == ","
    requires ws != [] && AllWellFormed(ws) && InStep(ReadNumber, ws, |ws|)
    requires i < |ws| && !Skipped(ReadNumber, ws[i].entry.value)
    requires DistinctNames(CppList(ReadNumber, ws, |ws|))
    ensures var calls := Entries(PrintAll(ws, tail));
            var name, value := ws[i].entry.name, CppValue(ws, i);
            && name in NameValueMap(calls) && NameValueMap(calls)[name] == value
            && value in ValueNameMap(calls) && value in Vector(calls)
            && ValueNameMap(calls)[value] in NameValueMap(calls)
            && NameValueMap(calls)[ValueNameMap(calls)[value]] == value
  {
    var calls := CppList(ReadNumber, ws, |ws|);
    ParsesWithCppNumbering(ws, tail);
    CppListAt(ReadNumber, ws, |ws|, i);
    var k :| 0 <= k < |calls| && calls[k] == CppEntry(ws, i);
    NameHasItsValue(calls, k);
    ValueNameMapMeaning(calls, calls[k].1);
    VectorIsKeys(calls, calls[k].1);
    ValueOfNameOfValue(calls, calls[k].1);
  }
}
