/** `JSON.stringify` on texts, integers and nested arrays, and the proof that its text determines the value. */
module JsonText {
  import opened DecimalText

  datatype Json = JText(text: string) | JNumber(number: int) | JArray(items: JsonList)

  datatype JsonList = Nil | Cons(head: Json, tail: JsonList)

  /** An array literal. */
  function List(items: seq<Json>): JsonList {
    if items == [] then Nil else Cons(items[0], List(items[1..]))
  }

  lemma {:induction false} ListExact(a: seq<Json>, b: seq<Json>)
    ensures List(a) == List(b) <==> a == b
  {
    if a != [] && b != [] {
      ListExact(a[1..], b[1..]);
      assert a == [a[0]] + a[1..] && b == [b[0]] + b[1..];
    }
  }

  function HexDigit(n: int): char
    requires 0 <= n < 16
  {
    if n < 10 then DigitChar(n) else ('a' as int + n - 10) as char
  }

  /** The letter of a two-character escape, if the character has one. */
  function ShortEscape(c: char): string {
    if c == '"' then "\"" else if c == '\\' then "\\"
    else if c as int == 8 then "b" else if c as int == 12 then "f" else if c as int == 10 then "n"
    else if c as int == 13 then "r" else if c as int == 9 then "t" else ""
  }

  function EscapeChar(c: char): (r: string)
    ensures r != ""
  {
    if ShortEscape(c) != "" then "\\" + ShortEscape(c)
    else if c as int < 32 then "\\u00" + [HexDigit(c as int / 16), HexDigit(c as int % 16)]
    else [c]
  }

  function Escape(s: string): string {
    if s == "" then "" else EscapeChar(s[0]) + Escape(s[1..])
  }

  function Stringify(j: Json): string
    decreases j
  {
    match j
    case JText(s) => "\"" + Escape(s) + "\""
    case JNumber(n) => IntText(n)
    case JArray(items) => "[" + Items(items) + "]"
  }

  function Items(l: JsonList): string
    decreases l
  {
    match l
    case Nil => ""
    case Cons(head, Nil) => Stringify(head)
    case Cons(head, tail) => Stringify(head) + "," + Items(tail)
  }

  // ----- the text determines the value -----

  lemma SameHead(a: char, b: char, x: string, y: string)
    requires [a] + x == [b] + y
    ensures a == b && x == y
  {
    assert ([a] + x)[0] == a && ([b] + y)[0] == b;
    assert x == ([a] + x)[1..] && y == ([b] + y)[1..];
  }

  lemma HexPairExact(m: int, n: int)
    requires 0 <= m < 32 && 0 <= n < 32
    ensures HexDigit(m / 16) == HexDigit(n / 16) && HexDigit(m % 16) == HexDigit(n % 16) ==> m == n
  {}

  /** Where an escape may stand: it starts with a backslash exactly when the character is escaped. */
  lemma EscapeCharShape(c: char)
    ensures var e := EscapeChar(c);
            && e[0] != '"'
            && (e[0] == '\\' <==> |e| > 1)
            && (|e| == 1 ==> e[0] == c && ShortEscape(c) == "")
            && (|e| == 2 ==> e[1] == ShortEscape(c)[0] && e[1] != 'u' && ShortEscape(c) != "")
            && (|e| == 1 || |e| == 2 || |e| == 6)
            && (|e| == 6 ==> e[1] == 'u' && c as int < 32 && e[4] == HexDigit(c as int / 16)
                             && e[5] == HexDigit(c as int % 16))
  {}

  lemma ShortEscapeExact(a: char, b: char)
    requires ShortEscape(a) != ""
    ensures ShortEscape(a) == ShortEscape(b) ==> a == b
  {}

  /** No escape is the front of another. */
  lemma EscapeCharSplit(a: char, b: char, x: string, y: string)
    requires EscapeChar(a) + x == EscapeChar(b) + y
    ensures a == b && x == y
  {
    EscapeCharShape(a);
    EscapeCharShape(b);
    hide EscapeChar, HexDigit, ShortEscape;
    var e, f, s := EscapeChar(a), EscapeChar(b), EscapeChar(a) + x;
    assert e[0] == s[0] && f[0] == s[0];
    assert |e| > 1 ==> e[1] == s[1] && f[1] == s[1];
    assert |e| == |f|;
    assert e == s[..|e|] && f == s[..|f|] && x == s[|e|..] && y == s[|f|..];
    SameEscape(a, b);
  }

  lemma SameEscape(a: char, b: char)
    requires EscapeChar(a) == EscapeChar(b)
    ensures a == b
  {
    EscapeCharShape(a);
    EscapeCharShape(b);
    hide EscapeChar, HexDigit;
    if |EscapeChar(a)| == 2 {
      ShortEscapeExact(a, b);
    } else if |EscapeChar(a)| == 6 {
      HexPairExact(a as int, b as int);
    }
  }

  lemma EscapedHead(s: string, x: string)
    requires s != ""
    ensures Escape(s) + ("\"" + x) == EscapeChar(s[0]) + (Escape(s[1..]) + ("\"" + x))
    ensures (Escape(s) + ("\"" + x))[0] != '"'
  {
    EscapeCharShape(s[0]);
  }

  /** A quoted text ends at its own closing quote. */
  lemma {:induction false} EscapeSplit(s: string, t: string, x: string, y: string)
    requires Escape(s) + ("\"" + x) == Escape(t) + ("\"" + y)
    ensures s == t && x == y
  {
    hide Escape, EscapeChar;
    if s != "" {
      EscapedHead(s, x);
    }
    if t != "" {
      EscapedHead(t, y);
    }
    EscapeEmpty(x);
    EscapeEmpty(y);
    if s == "" || t == "" {
      assert s == "" && t == "";
      SameHead('"', '"', x, y);
    } else {
      EscapeCharSplit(s[0], t[0], Escape(s[1..]) + ("\"" + x), Escape(t[1..]) + ("\"" + y));
      EscapeSplit(s[1..], t[1..], x, y);
      assert s == [s[0]] + s[1..] && t == [t[0]] + t[1..];
    }
  }

  lemma EscapeEmpty(x: string)
    ensures Escape("") + ("\"" + x) == "\"" + x && ("\"" + x)[0] == '"'
  {}

  /** What may follow a value inside an array, or at the end. */
  predicate Ends(s: string) { s == "" || s[0] == ',' || s[0] == ']' }

  lemma StringifyHead(j: Json, x: string)
    ensures var s := Stringify(j) + x;
            && s != ""
            && (s[0] == '"' <==> j.JText?) && (s[0] == '[' <==> j.JArray?) && s[0] != ']' && s[0] != ','
  {
    hide Escape, Items, IntText;
    match j
    case JText(_) =>
    case JNumber(n) => IntTextHead(n, x);
    case JArray(_) =>
  }

  lemma TextParts(s: string, x: string)
    ensures Stringify(JText(s)) + x == ['"'] + (Escape(s) + ("\"" + x))
  {
    hide Escape;
  }

  lemma ArrayParts(l: JsonList, x: string)
    ensures Stringify(JArray(l)) + x == ['['] + (Items(l) + ("]" + x))
  {
    hide Items;
  }

  /** A value's text is recovered from whatever it is the front of. */
  lemma {:induction false} StringifySplit(a: Json, b: Json, x: string, y: string)
    requires Ends(x) && Ends(y) && Stringify(a) + x == Stringify(b) + y
    ensures a == b && x == y
    decreases a, 0
  {
    StringifyHead(a, x);
    StringifyHead(b, y);
    hide Stringify, Escape, Items, IntText;
    match a
    case JText(s) =>
      TextParts(s, x);
      TextParts(b.text, y);
      SameHead('"', '"', Escape(s) + ("\"" + x), Escape(b.text) + ("\"" + y));
      EscapeSplit(s, b.text, x, y);
    case JNumber(n) =>
      NumberParts(n);
      NumberParts(b.number);
      IntTextSplit(n, b.number, x, y);
    case JArray(l) =>
      ArrayParts(l, x);
      ArrayParts(b.items, y);
      SameHead('[', '[', Items(l) + ("]" + x), Items(b.items) + ("]" + y));
      ItemsSplit(l, b.items, x, y);
  }

  lemma NumberParts(n: int)
    ensures Stringify(JNumber(n)) == IntText(n)
  {}

  /** The text after the first item: the closing bracket, or a comma and the other items. */
  function After(l: JsonList, x: string): string
    requires l.Cons?
  {
    if l.tail.Nil? then "]" + x else "," + (Items(l.tail) + ("]" + x))
  }

  lemma ItemsParts(l: JsonList, x: string)
    requires l.Cons?
    ensures Items(l) + ("]" + x) == Stringify(l.head) + After(l, x)
    ensures Ends(After(l, x))
  {
    hide Stringify;
  }

  lemma ItemsEmpty(x: string)
    ensures Items(Nil) + ("]" + x) == "]" + x && ("]" + x)[0] == ']'
  {}

  lemma {:induction false} ItemsSplit(k: JsonList, l: JsonList, x: string, y: string)
    requires Items(k) + ("]" + x) == Items(l) + ("]" + y)
    ensures k == l && x == y
    decreases k, 1
  {
    hide Stringify, Items;
    ItemsEmpty(x);
    ItemsEmpty(y);
    if k.Cons? {
      ItemsParts(k, x);
      StringifyHead(k.head, After(k, x));
    }
    if l.Cons? {
      ItemsParts(l, y);
      StringifyHead(l.head, After(l, y));
    }
    if k.Nil? || l.Nil? {
      assert k.Nil? && l.Nil?;
      SameHead(']', ']', x, y);
    } else {
      StringifySplit(k.head, l.head, After(k, x), After(l, y));
      assert After(k, x)[0] == After(l, y)[0];
      if k.tail.Nil? {
        SameHead(']', ']', x, y);
      } else {
        SameHead(',', ',', Items(k.tail) + ("]" + x), Items(l.tail) + ("]" + y));
        ItemsSplit(k.tail, l.tail, x, y);
      }
    }
  }

  /** Different values never have the same text. */
  lemma StringifyInjective(a: Json, b: Json)
    ensures Stringify(a) == Stringify(b) <==> a == b
  {
    if Stringify(a) == Stringify(b) {
      assert Stringify(a) + "" == Stringify(b) + "";
      StringifySplit(a, b, "", "");
    }
  }
}
