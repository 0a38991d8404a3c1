/** Directories: a text of names and inode numbers, and the search for a name in it. */
module Directory {

  datatype Entry = Entry(name: string, ino: nat)

  predicate IsDigit(c: char) {
    '0' <= c <= '9'
  }

  predicate IsSpace(c: char) {
    c == ' ' || 9 <= c as int <= 13
  }

  // ----- the text of a directory

  function Decimal(n: nat): (s: string)
    ensures |s| > 0 && forall c :: c in s ==> IsDigit(c)
  {
    if n < 10 then [Digit(n)] else Decimal(n / 10) + [Digit(n % 10)]
  }

  function Digit(d: nat): (c: char)
    requires d < 10
    ensures IsDigit(c) && c as int - '0' as int == d
  {
    '0' + d as char
  }

  /** A number in a field of four, padded with spaces in front. */
  function Padded(n: nat): (s: string) {
    Spaces(if |Decimal(n)| < 4 then 4 - |Decimal(n)| else 0) + Decimal(n)
  }

  function Spaces(k: nat): (s: string)
    ensures |s| == k && forall i :: 0 <= i < k ==> s[i] == ' '
  {
    if k == 0 then "" else " " + Spaces(k - 1)
  }

  function EntryText(e: Entry): (s: string) {
    e.name + Padded(e.ino) + " "
  }

  function DirText(es: seq<Entry>): (s: string) {
    if es == [] then "" else EntryText(es[0]) + DirText(es[1..])
  }

  /** Entries as the file system is made with them. */
  lemma {:induction false} EntryTexts()
    ensures EntryText(Entry("home/", 1)) == "home/   1 "
    ensures EntryText(Entry("cd", 10)) == "cd  10 "
  {
    assert Padded(1) == "   1" by { assert Spaces(3) == "   "; }
    assert Padded(10) == "  10" by { assert Decimal(10) == "10" && Spaces(2) == "  "; }
  }

  // ----- looking up a name

  /** The value of the digits at the start of a text, after those read so far. */
  function Digits(s: string, acc: nat): (n: nat)
    decreases |s|
  {
    if s == "" || !IsDigit(s[0]) then acc else Digits(s[1..], 10 * acc + (s[0] as int - '0' as int))
  }

  /** The C library's conversion of a text to a number. */
  function Atoi(s: string): (n: int)
    decreases |s|
  {
    if s != "" && IsSpace(s[0]) then Atoi(s[1..])
    else if s != "" && s[0] == '-' then 0 - (Digits(s[1..], 0) as int)
    else if s != "" && s[0] == '+' then Digits(s[1..], 0)
    else Digits(s, 0)
  }

  function NumberAt(text: string, i: nat): (n: int)
    requires i <= |text|
  {
    Atoi(text[i..])
  }

  /** The name stands at position `i`, between spaces. */
  predicate MatchAt(text: string, name: string, i: nat) {
    && i + |name| < |text| && text[i..i + |name|] == name
    && text[i + |name|] == ' ' && (i == 0 || text[i - 1] == ' ')
  }

  /** The first position, from `i` on, where the name stands. */
  function FindFrom(text: string, name: string, i: nat): (j: nat)
    requires |name| <= |text| && i <= |text| - |name|
    ensures i <= j <= |text| - |name|
    ensures j < |text| - |name| ==> MatchAt(text, name, j)
    ensures forall k :: i <= k < j ==> !MatchAt(text, name, k)
    decreases |text| - i
  {
    if i == |text| - |name| || MatchAt(text, name, i) then i else FindFrom(text, name, i + 1)
  }

  function LookupResult(text: string, name: string): (ino: int)
    requires |name| <= |text|
  {
    var j := FindFrom(text, name, 0);
    if j < |text| - |name| then NumberAt(text, j + |name|) else -1
  }

  /** The search loop; texts and names are what comes before their terminating zeros. */
  method Lookup(text: string, name: string) returns (ino: int)
    requires |name| <= |text| && '\0' !in text && '\0' !in name
    ensures ino == LookupResult(text, name)
  {
    var i := 0;
    while i < |text| - |name|
      invariant 0 <= i <= |text| - |name|
      invariant FindFrom(text, name, 0) == FindFrom(text, name, i)
    {
      if text[i..i + |name|] == name && text[i + |name|] == ' ' && (i == 0 || text[i - 1] == ' ') {
        return NumberAt(text, i + |name|);
      }
      i := i + 1;
    }
    return -1;
  }

  // ----- lookup inverts the text format

  predicate NameOk(name: string) {
    name != "" && ' ' !in name
  }

  /** The number of the first entry with a name, or -1. */
  function FirstEntry(es: seq<Entry>, name: string): (ino: int)
    ensures ino >= -1
  {
    if es == [] then -1 else if es[0].name == name then es[0].ino else FirstEntry(es[1..], name)
  }

  /** Two words that start at the same place and end at a space are the same word. */
  lemma {:induction false} SameWord(text: string, i: nat, a: string, b: string)
    requires i + |a| < |text| && text[i..i + |a|] == a && text[i + |a|] == ' ' && ' ' !in a
    requires i + |b| < |text| && text[i..i + |b|] == b && text[i + |b|] == ' ' && ' ' !in b
    ensures a == b
  {
  }

  lemma {:induction false} DigitsOfDecimal(n: nat, rest: string)
    ensures Digits(Decimal(n) + rest, 0) == Digits(rest, n)
  {
    if n < 10 {
      assert (Decimal(n) + rest)[1..] == rest;
    } else {
      var d := [Digit(n % 10)];
      assert Decimal(n) + rest == Decimal(n / 10) + (d + rest);
      DigitsOfDecimal(n / 10, d + rest);
      assert (d + rest)[1..] == rest;
    }
  }

  lemma {:induction false} AtoiSkipsSpaces(k: nat, s: string)
    ensures Atoi(Spaces(k) + s) == Atoi(s)
  {
    if k == 0 {
      assert Spaces(k) + s == s;
    } else {
      assert (Spaces(k) + s)[1..] == Spaces(k - 1) + s;
      AtoiSkipsSpaces(k - 1, s);
    }
  }

  /** The number of an entry is read back. */
  lemma {:induction false} AtoiOfPadded(n: nat, rest: string)
    ensures Atoi(Padded(n) + (" " + rest)) == n
  {
    var k := if |Decimal(n)| < 4 then 4 - |Decimal(n)| else 0;
    var s := Decimal(n) + (" " + rest);
    assert Padded(n) + (" " + rest) == Spaces(k) + s;
    AtoiSkipsSpaces(k, s);
    assert s[0] == Decimal(n)[0] && s[0] in Decimal(n);
    DigitsOfDecimal(n, " " + rest);
  }

  lemma {:induction false} ShortDecimal(n: nat)
    ensures |Decimal(n)| < 4 <==> n < 1000
  {
    if n >= 10 {
      assert |Decimal(n)| == |Decimal(n / 10)| + 1;
      if n >= 100 {
        assert |Decimal(n / 10)| == |Decimal(n / 10 / 10)| + 1;
        if n >= 1000 {
          assert |Decimal(n / 10 / 10)| == |Decimal(n / 10 / 10 / 10)| + 1;
        }
      }
    }
  }

  lemma {:induction false} EntryReadBack(e: Entry, rest: string)
    requires e.ino < 1000
    ensures MatchAt(EntryText(e) + rest, e.name, 0)
    ensures NumberAt(EntryText(e) + rest, |e.name|) == e.ino
  {
    var text := EntryText(e) + rest;
    ShortDecimal(e.ino);
    assert text == e.name + (Padded(e.ino) + (" " + rest));
    assert text[|e.name|..] == Padded(e.ino) + (" " + rest);
    assert text[0..|e.name|] == e.name && text[|e.name|] == Padded(e.ino)[0];
    AtoiOfPadded(e.ino, rest);
  }

  /** The word that an entry puts into the text besides its name, or in place of it if
      the number fills its field. */
  function OtherWord(e: Entry): (w: string) {
    if e.ino < 1000 then Decimal(e.ino) else e.name + Decimal(e.ino)
  }

  /** Where that word stands in the text of the entry. */
  function OtherWordAt(e: Entry): (i: nat)
    ensures i < |EntryText(e)|
  {
    ShortDecimal(e.ino);
    if e.ino < 1000 then |e.name| + 4 - |Decimal(e.ino)| else 0
  }

  lemma {:induction false} OtherWordThere(e: Entry, rest: string)
    requires NameOk(e.name)
    ensures ' ' !in OtherWord(e) && MatchAt(EntryText(e) + rest, OtherWord(e), OtherWordAt(e))
  {
    ShortDecimal(e.ino);
    var text, start, word := EntryText(e) + rest, OtherWordAt(e), OtherWord(e);
    assert text == (if e.ino < 1000 then e.name + Spaces(4 - |word|) else "") + word + (" " + rest);
  }

  /** Elsewhere in an entry, either there is a space or no space comes before. */
  lemma {:induction false} NotAWordStart(e: Entry, rest: string, i: nat)
    requires NameOk(e.name) && 0 < i < |EntryText(e)| && i != OtherWordAt(e)
    ensures var text := EntryText(e) + rest; text[i] == ' ' || text[i - 1] != ' '
  {
    ShortDecimal(e.ino);
    var text, number := EntryText(e) + rest, |EntryText(e)| - 1 - |Decimal(e.ino)|;
    if i <= |e.name| {
      assert text[i - 1] == e.name[i - 1] && e.name[i - 1] in e.name;
    } else if number < i < |EntryText(e)| - 1 {
      assert text[i - 1] == Decimal(e.ino)[i - 1 - number] && Decimal(e.ino)[i - 1 - number] in Decimal(e.ino);
    }
  }

  /** The text of an entry has no other words than these. */
  lemma {:induction false} WordsOfEntry(e: Entry, rest: string, name: string, i: nat)
    requires NameOk(e.name) && NameOk(name) && i < |EntryText(e)|
    ensures MatchAt(EntryText(e) + rest, name, i) <==>
      || (e.ino < 1000 && i == 0 && name == e.name)
      || (i == OtherWordAt(e) && name == OtherWord(e))
  {
    var text, start := EntryText(e) + rest, OtherWordAt(e);
    OtherWordThere(e, rest);
    if e.ino < 1000 {
      EntryReadBack(e, rest);
    }
    if MatchAt(text, name, i) {
      assert text[i] == name[0] && name[0] in name;
      if i == start {
        SameWord(text, start, OtherWord(e), name);
      } else if i > 0 {
        NotAWordStart(e, rest, i);
      } else {
        SameWord(text, 0, e.name, name);
      }
    }
  }

  /** After an entry, the name stands where it stands in the rest. */
  lemma {:induction false} MatchAfterEntry(e: Entry, rest: string, name: string, i: nat)
    requires NameOk(name)
    ensures MatchAt(EntryText(e) + rest, name, |EntryText(e)| + i) <==> MatchAt(rest, name, i)
  {
  }

  /** The position of the first entry with a name in the text, or the end of the text. */
  function Position(es: seq<Entry>, name: string): (j: nat)
    ensures FirstEntry(es, name) == -1 ==> j == |DirText(es)|
  {
    if es == [] || es[0].name == name then 0 else |EntryText(es[0])| + Position(es[1..], name)
  }

  /** The position of the first word that is the name, in an entry or later. */
  function FirstPosition(e: Entry, name: string, later: nat): (j: nat) {
    if e.name == name && e.ino < 1000 then 0
    else if OtherWord(e) == name then OtherWordAt(e)
    else |EntryText(e)| + later
  }

  /** The position of the first word of the text that is the name, or the end of the text. */
  function WordPosition(es: seq<Entry>, name: string): (j: nat) {
    if es == [] then 0 else FirstPosition(es[0], name, WordPosition(es[1..], name))
  }

  predicate NamesOk(es: seq<Entry>) {
    forall e :: e in es ==> NameOk(e.name)
  }

  lemma {:induction false} NamesOfRest(es: seq<Entry>)
    requires NamesOk(es) && es != []
    ensures NameOk(es[0].name) && NamesOk(es[1..])
  {
    assert es[0] in es;
  }

  /** How many entries come before the first one with a name. */
  function Before(es: seq<Entry>, name: string): (k: nat)
    ensures k <= |es| && (k < |es| <==> FirstEntry(es, name) >= 0)
    ensures k < |es| ==> es[k].name == name && es[k].ino == FirstEntry(es, name)
    ensures forall i :: 0 <= i < k ==> es[i].name != name
  {
    if es == [] || es[0].name == name then 0 else 1 + Before(es[1..], name)
  }

  /** The number of the first entry with the name leaves a space in its field, and no
      other word of the entries before it is the name. */
  predicate Distinct(es: seq<Entry>, name: string) {
    var k := Before(es, name);
    && (k < |es| ==> es[k].ino < 1000)
    && forall i :: 0 <= i < k ==> OtherWord(es[i]) != name
  }

  lemma {:induction false} DistinctRest(es: seq<Entry>, name: string)
    requires es != [] && es[0].name != name
    ensures Distinct(es, name) <==> OtherWord(es[0]) != name && Distinct(es[1..], name)
  {
    var k := Before(es[1..], name);
    assert Before(es, name) == k + 1;
    if OtherWord(es[0]) != name && Distinct(es[1..], name) {
      forall i | 0 <= i < k + 1
        ensures OtherWord(es[i]) != name
      {
        assert i > 0 ==> es[i] == es[1..][i - 1];
      }
    }
    if Distinct(es, name) {
      assert OtherWord(es[0]) != name;
      forall i | 0 <= i < k
        ensures OtherWord(es[1..][i]) != name
      {
        assert es[1..][i] == es[i + 1];
      }
    }
  }

  /** The first word that is the name is the name of an entry exactly in that case. */
  lemma {:induction false} WordIsEntry(es: seq<Entry>, name: string)
    requires NamesOk(es)
    ensures WordPosition(es, name) <= |DirText(es)|
    ensures WordPosition(es, name) == Position(es, name) <==> Distinct(es, name)
  {
    if es != [] {
      NamesOfRest(es);
      WordIsEntry(es[1..], name);
      if es[0].name != name {
        DistinctRest(es, name);
      } else {
        assert Before(es, name) == 0;
      }
    }
  }

  /** The name stands at position `j` and nowhere before, or nowhere if that is the end. */
  predicate FirstMatch(text: string, name: string, j: nat) {
    && j <= |text|
    && (j < |text| ==> MatchAt(text, name, j))
    && forall i :: 0 <= i < j ==> !MatchAt(text, name, i)
  }

  lemma {:induction false} FirstMatchStops(text: string, name: string, j: nat)
    requires |name| <= |text| && FirstMatch(text, name, j)
    ensures if j < |text| then FindFrom(text, name, 0) == j < |text| - |name|
      else FindFrom(text, name, 0) == |text| - |name|
  {
  }

  lemma {:induction false} FirstAfterEntry(e: Entry, rest: string, name: string, j: nat)
    requires NameOk(name) && FirstMatch(rest, name, j)
    requires forall i :: 0 <= i < |EntryText(e)| ==> !MatchAt(EntryText(e) + rest, name, i)
    ensures FirstMatch(EntryText(e) + rest, name, |EntryText(e)| + j)
  {
    var n := |EntryText(e)|;
    MatchAfterEntry(e, rest, name, j);
    forall i | n <= i < n + j
      ensures !MatchAt(EntryText(e) + rest, name, i)
    {
      MatchAfterEntry(e, rest, name, i - n);
    }
  }

  lemma {:induction false} NoneBefore(e: Entry, rest: string, name: string, j: nat)
    requires NameOk(e.name) && NameOk(name) && j <= |EntryText(e)|
    requires !(e.name == name && e.ino < 1000) && (OtherWord(e) == name ==> j == OtherWordAt(e))
    ensures forall i :: 0 <= i < j ==> !MatchAt(EntryText(e) + rest, name, i)
  {
    forall i | 0 <= i < j
      ensures !MatchAt(EntryText(e) + rest, name, i)
    {
      WordsOfEntry(e, rest, name, i);
    }
  }

  lemma {:induction false} FirstWithEntry(e: Entry, rest: string, name: string, later: nat)
    requires NameOk(e.name) && NameOk(name) && FirstMatch(rest, name, later)
    ensures FirstMatch(EntryText(e) + rest, name, FirstPosition(e, name, later))
  {
    if e.name == name && e.ino < 1000 {
      EntryReadBack(e, rest);
    } else if OtherWord(e) == name {
      OtherWordThere(e, rest);
      NoneBefore(e, rest, name, OtherWordAt(e));
    } else {
      NoneBefore(e, rest, name, |EntryText(e)|);
      FirstAfterEntry(e, rest, name, later);
    }
  }

  /** The words of a text are those of its entries. */
  lemma {:induction false} FirstWord(es: seq<Entry>, name: string)
    requires NamesOk(es) && NameOk(name)
    ensures FirstMatch(DirText(es), name, WordPosition(es, name))
  {
    if es != [] {
      NamesOfRest(es);
      FirstWord(es[1..], name);
      FirstWithEntry(es[0], DirText(es[1..]), name, WordPosition(es[1..], name));
    }
  }

  /** The search stops at the first word that is the name, or runs to the end. */
  lemma {:induction false} SearchStops(es: seq<Entry>, name: string)
    requires NamesOk(es) && NameOk(name) && |name| <= |DirText(es)|
    ensures var text, j := DirText(es), WordPosition(es, name);
      if j < |text| then FindFrom(text, name, 0) == j < |text| - |name|
      else FindFrom(text, name, 0) == |text| - |name|
  {
    FirstWord(es, name);
    FirstMatchStops(DirText(es), name, WordPosition(es, name));
  }

  /** What the search returns, said of the entries: the number after the first word that
      is the name, which need not be the number of an entry with that name. */
  function Searched(es: seq<Entry>, name: string): (ino: int) {
    if es == [] then -1 else FirstNumber(es[0], DirText(es[1..]), name, Searched(es[1..], name))
  }

  function FirstNumber(e: Entry, rest: string, name: string, later: int): (ino: int) {
    if e.name == name && e.ino < 1000 then e.ino
    else if OtherWord(e) == name then Atoi(rest)
    else later
  }

  /** What is read after the name at position `j` is `n`, or the end and -1. */
  predicate Reads(text: string, name: string, j: nat, n: int) {
    if j < |text| then j + |name| <= |text| && NumberAt(text, j + |name|) == n else n == -1
  }

  lemma {:induction false} ReadsPast(a: string, b: string, name: string, j: nat, n: int)
    requires Reads(b, name, j, n)
    ensures Reads(a + b, name, |a| + j, n)
  {
    if j < |b| {
      assert (a + b)[|a| + j + |name|..] == b[j + |name|..];
    }
  }

  lemma {:induction false} NumberAfterEntry(e: Entry, rest: string)
    ensures OtherWordAt(e) + |OtherWord(e)| == |EntryText(e)| - 1
    ensures NumberAt(EntryText(e) + rest, |EntryText(e)| - 1) == Atoi(rest)
  {
    ShortDecimal(e.ino);
    assert (EntryText(e) + rest)[|EntryText(e)| - 1..] == " " + rest;
    assert (" " + rest)[1..] == rest;
  }

  lemma {:induction false} ReadsWithEntry(e: Entry, rest: string, name: string, later: nat, n: int)
    requires Reads(rest, name, later, n)
    ensures Reads(EntryText(e) + rest, name, FirstPosition(e, name, later), FirstNumber(e, rest, name, n))
  {
    if e.name == name && e.ino < 1000 {
      EntryReadBack(e, rest);
    } else if OtherWord(e) == name {
      NumberAfterEntry(e, rest);
    } else {
      ReadsPast(EntryText(e), rest, name, later, n);
    }
  }

  lemma {:induction false} NumberAfterWord(es: seq<Entry>, name: string)
    ensures Reads(DirText(es), name, WordPosition(es, name), Searched(es, name))
  {
    if es != [] {
      NumberAfterWord(es[1..], name);
      ReadsWithEntry(es[0], DirText(es[1..]), name, WordPosition(es[1..], name), Searched(es[1..], name));
    }
  }

  lemma {:induction false} FirstMatchResult(text: string, name: string, j: nat, n: int)
    requires |name| <= |text| && FirstMatch(text, name, j)
    requires Reads(text, name, j, n)
    ensures LookupResult(text, name) == n
  {
  }

  lemma {:induction false} SearchedIsFirst(es: seq<Entry>, name: string)
    requires Distinct(es, name)
    ensures Searched(es, name) == FirstEntry(es, name)
  {
    if es != [] && es[0].name != name {
      DistinctRest(es, name);
      SearchedIsFirst(es[1..], name);
    }
  }

  lemma {:induction false} PositionFits(es: seq<Entry>, name: string)
    requires FirstEntry(es, name) >= 0
    ensures Position(es, name) + |name| < |DirText(es)|
  {
    if es[0].name != name {
      PositionFits(es[1..], name);
    }
  }

  /** Over every list of entries: a name that is there is found where its first entry
      stands, and a name that is not there is not found, exactly when the words of the
      text keep them apart. */
  lemma {:induction false} FieldSeparates(es: seq<Entry>, name: string)
    requires NamesOk(es) && NameOk(name) && |name| <= |DirText(es)|
    ensures FirstEntry(es, name) >= 0 ==>
      (FindFrom(DirText(es), name, 0) == Position(es, name) <==> Distinct(es, name))
    ensures FirstEntry(es, name) == -1 ==>
      (FindFrom(DirText(es), name, 0) == |DirText(es)| - |name| <==> Distinct(es, name))
  {
    SearchStops(es, name);
    WordIsEntry(es, name);
    if FirstEntry(es, name) >= 0 {
      PositionFits(es, name);
    }
  }

  /** The number that a lookup returns, over every list of entries. */
  lemma {:induction false} LookupIs(es: seq<Entry>, name: string)
    requires NamesOk(es) && NameOk(name) && |name| <= |DirText(es)|
    ensures LookupResult(DirText(es), name) == Searched(es, name)
  {
    FirstWord(es, name);
    NumberAfterWord(es, name);
    FirstMatchResult(DirText(es), name, WordPosition(es, name), Searched(es, name));
  }

  /** When the words keep them apart, looking up a name gives the number of the first
      entry with that name, and -1 if there is none. */
  lemma {:induction false} LookupInverts(es: seq<Entry>, name: string)
    requires NamesOk(es) && NameOk(name) && |name| <= |DirText(es)| && Distinct(es, name)
    ensures LookupResult(DirText(es), name) == FirstEntry(es, name)
  {
    LookupIs(es, name);
    SearchedIsFirst(es, name);
  }

  /** A number of four digits makes one word with its name, which another entry may have
      as its name. */
  lemma {:induction false} LongNumberHides()
    ensures var es := [Entry("a", 1000), Entry("a1000", 5)];
      && |DirText(es)| >= 5 && FirstEntry(es, "a1000") == 5
      && LookupResult(DirText(es), "a1000") == 0
  {
    var es := [Entry("a", 1000), Entry("a1000", 5)];
    assert OtherWord(es[0]) == "a1000" by { assert Decimal(100) == "100"; }
    assert |EntryText(es[0])| >= 5;
    LookupIs(es, "a1000");
    assert Searched(es, "a1000") == Atoi(DirText(es[1..]));
    assert DirText(es[1..])[0] == 'a';
  }

  /** A shorter number is a word of its own. */
  lemma {:induction false} NumberHides()
    ensures var es := [Entry("x", 7), Entry("7", 3)];
      && |DirText(es)| >= 1 && FirstEntry(es, "7") == 3
      && LookupResult(DirText(es), "7") == 7
  {
    var es := [Entry("x", 7), Entry("7", 3)];
    LookupIs(es, "7");
    var rest := DirText(es[1..]);
    assert rest[0] == '7' && rest[1..][0] == ' ' && Digits(rest[1..], 7) == 7;
  }

  /** The number read then may happen to be the -1 of a name that is not there, so that
      the exact condition is about where the search stops. */
  lemma {:induction false} HiddenMinusOne()
    ensures var es := [Entry("x", 7), Entry("-1", 3)];
      && |DirText(es)| >= 1 && FirstEntry(es, "7") == -1 && !Distinct(es, "7")
      && LookupResult(DirText(es), "7") == -1
  {
    var es := [Entry("x", 7), Entry("-1", 3)];
    LookupIs(es, "7");
    var rest := DirText(es[1..]);
    assert rest[0] == '-' && rest[1] == '1' && rest[2] == ' ';
    assert Digits(rest[1..], 0) == 1 by { assert rest[1..][1..][0] == ' '; }
    assert OtherWord(es[0]) == "7";
  }
}
