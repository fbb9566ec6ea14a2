/** The part of TOML v1.0.0 that the hook override is written in: basic strings, decimal integers, arrays,
inline tables and keys, without optional white space. A printer and an independent reader of it. */
module Toml {
  import opened Bytes
  import opened Decimals
  import opened Hexadecimal

  // ---------------------------------------------------------------- basic strings

  predicate ControlCode(c: char) {
    c as int < 32 || c as int == 127
  }

  function Escape(c: char): (e: string)
    ensures e != ""
  {
    if c == '"' then "\\\""
    else if c == '\\' then "\\\\"
    else if c == '\n' then "\\n"
    else if c == '\r' then "\\r"
    else if c == '\t' then "\\t"
    else if ControlCode(c) then "\\u00" + [UpperDigit(c as int / 16), UpperDigit(c as int % 16)]
    else [c]
  }

  function Escaped(s: string): string {
    if s == "" then "" else Escape(s[0]) + Escaped(s[1..])
  }

  function Quoted(s: string): string {
    "\"" + Escaped(s) + "\""
  }

  lemma EscapedFrom(s: string, i: nat)
    requires i < |s|
    ensures Escaped(s[i..]) == Escape(s[i]) + Escaped(s[i + 1..])
  {
    assert s[i..][1..] == s[i + 1..];
  }

  method WriteRune(b: string, r: char) returns (longer: string)
    ensures longer == b + Escape(r)
  {
    match r {
      case '"' => longer := b + "\\\"";
      case '\\' => longer := b + "\\\\";
      case '\n' => longer := b + "\\n";
      case '\r' => longer := b + "\\r";
      case '\t' => longer := b + "\\t";
      case _ =>
        if r as int < 0x20 || r as int == 0x7f {
          longer := b + ("\\u00" + [UpperDigit(r as int / 16), UpperDigit(r as int % 16)]);
        } else {
          longer := b + [r];
        }
    }
  }

  /** tomlQuote in internal/codexhook/codexhook.go. */
  method TomlQuote(s: string) returns (b: string)
    ensures b == Quoted(s)
  {
    b := "\"";
    for i := 0 to |s|
      invariant b + Escaped(s[i..]) == "\"" + Escaped(s)
    {
      EscapedFrom(s, i);
      Regroup(b, Escape(s[i]), Escaped(s[i + 1..]));
      b := WriteRune(b, s[i]);
    }
    b := b + "\"";
  }

  /** The value of `n` hexadecimal digits. */
  function HexNumber(s: string): Option<nat> {
    if s == "" then Some(0) else
      match (HexNumber(s[..|s| - 1]), HexValue(s[|s| - 1]))
      case (Some(high), Some(low)) => Some(high * 16 + low)
      case _ => None
  }

  function ScalarOf(n: nat): Option<char> {
    if n < 0xD800 || 0xE000 <= n < 0x11_0000 then Some(n as char) else None
  }

  function CodeEscape(s: string, digits: nat): (r: Option<(char, string)>)
    ensures r.Some? ==> |r.value.1| <= |s|
  {
    if |s| < digits then None else
      match HexNumber(s[..digits])
      case None => None
      case Some(n) => match ScalarOf(n)
        case None => None
        case Some(c) => Some((c, s[digits..]))
  }

  /** What follows a backslash. */
  function ReadEscape(s: string): (r: Option<(char, string)>)
    ensures r.Some? ==> |r.value.1| < |s|
  {
    if s == "" then None else
      match s[0]
      case 'b' => Some((8 as char, s[1..]))
      case 't' => Some(('\t', s[1..]))
      case 'n' => Some(('\n', s[1..]))
      case 'f' => Some((12 as char, s[1..]))
      case 'r' => Some(('\r', s[1..]))
      case '"' => Some(('"', s[1..]))
      case '\\' => Some(('\\', s[1..]))
      case 'u' => CodeEscape(s[1..], 4)
      case 'U' => CodeEscape(s[1..], 8)
      case _ => None
  }

  /** One character of a basic string. */
  function ReadChar(s: string): (r: Option<(char, string)>)
    requires s != ""
    ensures r.Some? ==> |r.value.1| < |s|
  {
    if s[0] == '\\' then ReadEscape(s[1..])
    else if ControlCode(s[0]) && s[0] != '\t' then None
    else Some((s[0], s[1..]))
  }

  /** The rest of a basic string after its opening quote, and what follows it. */
  function ReadBasic(s: string): (r: Option<(string, string)>)
    ensures r.Some? ==> |r.value.1| < |s|
    decreases |s|
  {
    if s == "" then None
    else if s[0] == '"' then Some(("", s[1..]))
    else match ReadChar(s)
      case None => None
      case Some((c, after)) => match ReadBasic(after)
        case None => None
        case Some((text, rest)) => Some(([c] + text, rest))
  }

  lemma CodeReadsBack(c: char, rest: string)
    requires ControlCode(c)
    ensures CodeEscape("00" + [UpperDigit(c as int / 16), UpperDigit(c as int % 16)] + rest, 4) == Some((c, rest))
  {
    var digits := "00" + [UpperDigit(c as int / 16), UpperDigit(c as int % 16)];
    assert (digits + rest)[..4] == digits && (digits + rest)[4..] == rest;
    assert digits[..3] == "00" + [UpperDigit(c as int / 16)];
    assert digits[..3][..2] == "00" && "00"[..1] == "0" && "0"[..0] == "";
    assert HexNumber("0") == Some(0) && HexNumber("00") == Some(0);
    assert HexNumber(digits[..3]) == Some(c as int / 16);
  }

  lemma CharReadsBack(c: char, rest: string)
    ensures (Escape(c) + rest)[0] != '"'
    ensures ReadChar(Escape(c) + rest) == Some((c, rest))
  {
    var s := Escape(c) + rest;
    if c == '"' || c == '\\' || c == '\n' || c == '\r' || c == '\t' {
      assert s[1..][1..] == rest;
    } else if ControlCode(c) {
      var code := "00" + [UpperDigit(c as int / 16), UpperDigit(c as int % 16)] + rest;
      assert s[1..][0] == 'u' && s[1..][1..] == code;
      CodeReadsBack(c, rest);
    } else {
      assert s[1..] == rest;
    }
  }

  lemma StepReadsBack(c: char, tail: string, text: string, rest: string)
    requires ReadBasic(tail) == Some((text, rest))
    ensures ReadBasic(Escape(c) + tail) == Some(([c] + text, rest))
  {
    CharReadsBack(c, tail);
  }

  /** Reading a quoted string back gives the string, every string of code points. */
  lemma {:induction false} QuoteReadsBack(s: string, rest: string)
    ensures ReadBasic(Escaped(s) + "\"" + rest) == Some((s, rest))
  {
    if s == "" {
      assert (Escaped(s) + "\"" + rest)[1..] == rest;
    } else {
      var tail := Escaped(s[1..]) + "\"" + rest;
      assert Escaped(s) + "\"" + rest == Escape(s[0]) + tail;
      QuoteReadsBack(s[1..], rest);
      StepReadsBack(s[0], tail, s[1..], rest);
      assert s == [s[0]] + s[1..];
    }
  }

  // ---------------------------------------------------------------- values

  datatype Key = Bare(name: string) | Named(name: string)

  datatype Value = Text(text: string) | Number(number: nat) | Array(items: Items) | Table(entries: Entries)

  datatype Items = NoItems | Item(head: Value, tail: Items)

  datatype Entries = NoEntries | Entry(key: Key, value: Value, tail: Entries)

  function Names(e: Entries): seq<string> {
    match e
    case NoEntries => []
    case Entry(key, _, tail) => [key.name] + Names(tail)
  }

  predicate BareChar(c: char) {
    'A' <= c <= 'Z' || 'a' <= c <= 'z' || '0' <= c <= '9' || c == '_' || c == '-'
  }

  predicate BareName(s: string) {
    s != "" && forall i :: 0 <= i < |s| ==> BareChar(s[i])
  }

  predicate Distinct(names: seq<string>) {
    forall i, j :: 0 <= i < j < |names| ==> names[i] != names[j]
  }

  /** Bare keys are bare names and no table has a key twice. */
  predicate Sound(v: Value) {
    match v
    case Text(_) => true
    case Number(_) => true
    case Array(items) => SoundItems(items)
    case Table(entries) => Distinct(Names(entries)) && SoundEntries(entries)
  }

  predicate SoundItems(items: Items) {
    items.Item? ==> Sound(items.head) && SoundItems(items.tail)
  }

  predicate SoundEntries(e: Entries) {
    e.Entry? ==> (e.key.Bare? ==> BareName(e.key.name)) && Sound(e.value) && SoundEntries(e.tail)
  }

  // ---------------------------------------------------------------- the printer

  function PrintKey(k: Key): string {
    if k.Bare? then k.name else Quoted(k.name)
  }

  function Print(v: Value): string {
    match v
    case Text(text) => Quoted(text)
    case Number(n) => Decimal(n)
    case Array(items) => "[" + PrintItems(items) + "]"
    case Table(entries) => "{" + PrintEntries(entries) + "}"
  }

  function PrintItems(items: Items): string {
    match items
    case NoItems => ""
    case Item(head, NoItems) => Print(head)
    case Item(head, tail) => Print(head) + "," + PrintItems(tail)
  }

  function PrintEntries(e: Entries): string {
    match e
    case NoEntries => ""
    case Entry(key, value, NoEntries) => PrintKey(key) + "=" + Print(value)
    case Entry(key, value, tail) => PrintKey(key) + "=" + Print(value) + "," + PrintEntries(tail)
  }

  // ---------------------------------------------------------------- the reader

  /** The longest beginning made of bare characters, and the rest. */
  function BareRun(s: string): (r: (string, string))
    ensures s == r.0 + r.1
  {
    if s == "" || !BareChar(s[0]) then ("", s)
    else var (run, rest) := BareRun(s[1..]); ([s[0]] + run, rest)
  }

  function DigitRun(s: string): (r: (string, string))
    ensures s == r.0 + r.1
  {
    if s == "" || !IsDigit(s[0]) then ("", s)
    else var (run, rest) := DigitRun(s[1..]); ([s[0]] + run, rest)
  }

  function DigitValue(c: char): nat {
    if IsDigit(c) then c as int - '0' as int else 0
  }

  function NumberOf(digits: string): nat {
    if digits == "" then 0 else NumberOf(digits[..|digits| - 1]) * 10 + DigitValue(digits[|digits| - 1])
  }

  /** Digits without a leading zero. */
  function ReadNumber(s: string): (r: Option<(Value, string)>)
    ensures r.Some? ==> |r.value.1| < |s|
  {
    var (run, rest) := DigitRun(s);
    if run == "" || (|run| > 1 && run[0] == '0') then None else Some((Number(NumberOf(run)), rest))
  }

  function ReadKey(s: string): (r: Option<(Key, string)>)
    ensures r.Some? ==> |r.value.1| < |s|
  {
    if s != "" && s[0] == '"' then
      match ReadBasic(s[1..])
      case None => None
      case Some((name, rest)) => Some((Named(name), rest))
    else
      var (run, rest) := BareRun(s);
      if run == "" then None else Some((Bare(run), rest))
  }

  function ReadValue(s: string): (r: Option<(Value, string)>)
    ensures r.Some? ==> |r.value.1| < |s|
    decreases |s|, 0
  {
    if s == "" then None
    else if s[0] == '"' then
      match ReadBasic(s[1..])
      case None => None
      case Some((text, rest)) => Some((Text(text), rest))
    else if s[0] == '[' then
      if |s| > 1 && s[1] == ']' then Some((Array(NoItems), s[2..])) else
        match ReadItems(s[1..])
        case None => None
        case Some((items, rest)) => Some((Array(items), rest))
    else if s[0] == '{' then
      if |s| > 1 && s[1] == '}' then Some((Table(NoEntries), s[2..])) else
        match ReadEntries(s[1..])
        case None => None
        case Some((entries, rest)) => if Distinct(Names(entries)) then Some((Table(entries), rest)) else None
    else ReadNumber(s)
  }

  /** One or more values with commas between them, and the closing bracket. */
  function ReadItems(s: string): (r: Option<(Items, string)>)
    ensures r.Some? ==> |r.value.1| < |s|
    decreases |s|, 1
  {
    match ReadValue(s)
    case None => None
    case Some((head, after)) =>
      if after == "" then None
      else if after[0] == ']' then Some((Item(head, NoItems), after[1..]))
      else if after[0] != ',' then None
      else match ReadItems(after[1..])
        case None => None
        case Some((tail, rest)) => Some((Item(head, tail), rest))
  }

  /** One or more entries with commas between them, and the closing brace. */
  function ReadEntries(s: string): (r: Option<(Entries, string)>)
    ensures r.Some? ==> |r.value.1| < |s|
    decreases |s|, 1
  {
    match ReadKey(s)
    case None => None
    case Some((key, mapped)) =>
      if mapped == "" || mapped[0] != '=' then None else
        match ReadValue(mapped[1..])
        case None => None
        case Some((value, after)) =>
          if after == "" then None
          else if after[0] == '}' then Some((Entry(key, value, NoEntries), after[1..]))
          else if after[0] != ',' then None
          else match ReadEntries(after[1..])
            case None => None
            case Some((tail, rest)) => Some((Entry(key, value, tail), rest))
  }

  // ---------------------------------------------------------------- the round trip

  predicate NoDigitNext(rest: string) {
    rest == "" || !IsDigit(rest[0])
  }

  lemma {:induction false} BareReadsBack(name: string, rest: string)
    requires forall i :: 0 <= i < |name| ==> BareChar(name[i])
    requires rest != "" && !BareChar(rest[0])
    ensures BareRun(name + rest) == (name, rest)
  {
    if name == "" {
      assert name + rest == rest;
    } else {
      assert (name + rest)[1..] == name[1..] + rest;
      BareReadsBack(name[1..], rest);
      assert name == [name[0]] + name[1..];
    }
  }

  lemma NamedReadsBack(name: string, rest: string)
    ensures ReadKey(Quoted(name) + rest) == Some((Named(name), rest))
  {
    var s := Quoted(name) + rest;
    assert s[1..] == Escaped(name) + "\"" + rest;
    QuoteReadsBack(name, rest);
  }

  lemma KeyReadsBack(k: Key, rest: string)
    requires k.Bare? ==> BareName(k.name)
    requires rest != "" && !BareChar(rest[0])
    ensures ReadKey(PrintKey(k) + rest) == Some((k, rest))
  {
    if k.Bare? {
      assert (k.name + rest)[0] == k.name[0] && BareChar(k.name[0]);
      BareReadsBack(k.name, rest);
    } else {
      NamedReadsBack(k.name, rest);
    }
  }

  lemma {:induction false} DigitsReadBack(digits: string, rest: string)
    requires forall i :: 0 <= i < |digits| ==> IsDigit(digits[i])
    requires NoDigitNext(rest)
    ensures DigitRun(digits + rest) == (digits, rest)
  {
    if digits == "" {
      assert digits + rest == rest;
    } else {
      assert (digits + rest)[1..] == digits[1..] + rest;
      DigitsReadBack(digits[1..], rest);
      assert digits == [digits[0]] + digits[1..];
    }
  }

  lemma {:induction false} DecimalReadsBack(n: nat)
    ensures forall i :: 0 <= i < |Decimal(n)| ==> IsDigit(Decimal(n)[i])
    ensures NumberOf(Decimal(n)) == n
    ensures n > 0 ==> Decimal(n)[0] != '0'
    ensures n == 0 ==> Decimal(n) == "0"
  {
    var s := Decimal(n);
    if n < 10 {
      assert s[..|s| - 1] == "";
    } else {
      DecimalReadsBack(n / 10);
      assert s[..|s| - 1] == Decimal(n / 10);
      assert s[0] == Decimal(n / 10)[0];
    }
  }

  lemma NumberReadsBack(n: nat, rest: string)
    requires NoDigitNext(rest)
    ensures ReadValue(Decimal(n) + rest) == Some((Number(n), rest))
  {
    var s := Decimal(n) + rest;
    DecimalReadsBack(n);
    DigitsReadBack(Decimal(n), rest);
    assert s[0] == Decimal(n)[0] && IsDigit(s[0]);
  }

  /** No value begins with a closing bracket, and no key with a closing brace. */
  lemma PrintBegins(v: Value, s: string)
    requires Print(v) <= s
    ensures s != "" && s[0] != ']'
  {
    if v.Number? {
      DecimalReadsBack(v.number);
      assert IsDigit(Decimal(v.number)[0]);
    }
    assert s[0] == Print(v)[0];
  }

  lemma KeyBegins(k: Key, s: string)
    requires k.Bare? ==> BareName(k.name)
    requires PrintKey(k) <= s
    ensures s != "" && s[0] != '}'
  {
    assert s[0] == PrintKey(k)[0];
  }

  lemma TextReadsBack(text: string, rest: string)
    ensures ReadValue(Quoted(text) + rest) == Some((Text(text), rest))
  {
    var s := Quoted(text) + rest;
    assert s[1..] == Escaped(text) + "\"" + rest;
    QuoteReadsBack(text, rest);
  }

  /** A bracket or a brace, the inside, and what closes it. */
  lemma Opened(open: string, inside: string, close: string, rest: string)
    requires |open| == 1
    ensures (open + inside + close + rest)[0] == open[0]
    ensures (open + inside + close + rest)[1..] == inside + (close + rest)
  {
  }

  lemma ArrayReadsBack(items: Items, rest: string)
    requires items.Item? ==> ReadItems(PrintItems(items) + ("]" + rest)) == Some((items, rest))
    requires items.Item? ==> Print(items.head) <= PrintItems(items) + ("]" + rest)
    ensures ReadValue(Print(Array(items)) + rest) == Some((Array(items), rest))
  {
    var s := Print(Array(items)) + rest;
    Opened("[", PrintItems(items), "]", rest);
    if items.NoItems? {
      assert s[1..] == "]" + rest && s[2..] == rest;
    } else {
      PrintBegins(items.head, s[1..]);
    }
  }

  lemma BracedReads(s: string, e: Entries, rest: string)
    requires |s| > 1 && s[0] == '{' && s[1] != '}'
    requires ReadEntries(s[1..]) == Some((e, rest)) && Distinct(Names(e))
    ensures ReadValue(s) == Some((Table(e), rest))
  {
  }

  lemma TableReadsBack(e: Entries, rest: string)
    requires Distinct(Names(e)) && (e.Entry? && e.key.Bare? ==> BareName(e.key.name))
    requires e.Entry? ==> ReadEntries(PrintEntries(e) + ("}" + rest)) == Some((e, rest))
    requires e.Entry? ==> PrintKey(e.key) <= PrintEntries(e) + ("}" + rest)
    ensures ReadValue(Print(Table(e)) + rest) == Some((Table(e), rest))
  {
    var s := Print(Table(e)) + rest;
    Opened("{", PrintEntries(e), "}", rest);
    if e.NoEntries? {
      assert s[1..] == "}" + rest && s[2..] == rest;
    } else {
      KeyBegins(e.key, s[1..]);
      BracedReads(s, e, rest);
    }
  }

  /** Reading any sound value back after printing it gives the value. */
  lemma {:induction false} ValueReadsBack(v: Value, rest: string)
    requires Sound(v) && NoDigitNext(rest)
    ensures ReadValue(Print(v) + rest) == Some((v, rest))
    decreases v, 1
  {
    match v
    case Text(text) => TextReadsBack(text, rest);
    case Number(n) => NumberReadsBack(n, rest);
    case Array(items) =>
      if items.Item? {
        ItemsReadBack(items, rest);
      }
      ArrayReadsBack(items, rest);
    case Table(entries) =>
      if entries.Entry? {
        EntriesReadBack(entries, rest);
      }
      TableReadsBack(entries, rest);
  }

  lemma {:induction false} ItemsReadBack(items: Items, rest: string)
    requires items.Item? && SoundItems(items)
    ensures ReadItems(PrintItems(items) + ("]" + rest)) == Some((items, rest))
    ensures Print(items.head) <= PrintItems(items) + ("]" + rest)
    decreases items, 0
  {
    var s := PrintItems(items) + ("]" + rest);
    if items.tail.NoItems? {
      ValueReadsBack(items.head, "]" + rest);
      assert ("]" + rest)[1..] == rest;
    } else {
      var more := PrintItems(items.tail) + ("]" + rest);
      assert s == Print(items.head) + ("," + more);
      ValueReadsBack(items.head, "," + more);
      assert ("," + more)[1..] == more;
      ItemsReadBack(items.tail, rest);
    }
  }

  /** What follows the value of the first entry. */
  function AfterValue(e: Entries, rest: string): string
    requires e.Entry?
  {
    if e.tail.NoEntries? then "}" + rest else "," + (PrintEntries(e.tail) + ("}" + rest))
  }

  lemma RegroupEntry(k: string, v: string, close: string)
    ensures k + "=" + v + close == k + ("=" + (v + close))
  {
  }

  lemma RegroupMore(entry: string, more: string, close: string)
    ensures entry + "," + more + close == entry + ("," + (more + close))
  {
  }

  lemma EntryIsPrinted(e: Entries, rest: string)
    requires e.Entry?
    ensures PrintEntries(e) + ("}" + rest) == PrintKey(e.key) + ("=" + (Print(e.value) + AfterValue(e, rest)))
  {
    if e.tail.Entry? {
      RegroupMore(PrintKey(e.key) + "=" + Print(e.value), PrintEntries(e.tail), "}" + rest);
    }
    RegroupEntry(PrintKey(e.key), Print(e.value), AfterValue(e, rest));
  }

  lemma EntryReadsBack(e: Entries, rest: string)
    requires e.Entry? && (e.key.Bare? ==> BareName(e.key.name))
    requires ReadValue(Print(e.value) + AfterValue(e, rest)) == Some((e.value, AfterValue(e, rest)))
    requires e.tail.Entry? ==> ReadEntries(PrintEntries(e.tail) + ("}" + rest)) == Some((e.tail, rest))
    ensures ReadEntries(PrintEntries(e) + ("}" + rest)) == Some((e, rest))
  {
    var after := AfterValue(e, rest);
    var mapped := "=" + (Print(e.value) + after);
    EntryIsPrinted(e, rest);
    KeyReadsBack(e.key, mapped);
    assert mapped[1..] == Print(e.value) + after;
    if e.tail.NoEntries? {
      assert after[1..] == rest;
    } else {
      assert after[1..] == PrintEntries(e.tail) + ("}" + rest);
    }
  }

  lemma {:induction false} EntriesReadBack(e: Entries, rest: string)
    requires e.Entry? && SoundEntries(e)
    ensures ReadEntries(PrintEntries(e) + ("}" + rest)) == Some((e, rest))
    ensures PrintKey(e.key) <= PrintEntries(e) + ("}" + rest)
    decreases e, 0
  {
    EntryIsPrinted(e, rest);
    ValueReadsBack(e.value, AfterValue(e, rest));
    if e.tail.Entry? {
      EntriesReadBack(e.tail, rest);
    }
    EntryReadsBack(e, rest);
  }
}
