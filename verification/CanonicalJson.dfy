/** Canonical JSON (`ids.rs`): keys sorted at every level, compact separators.  Strings are printed as
    serde_json prints them (section 7 of RFC 8259); a number is identified with its printed text. */
module CanonicalJson {
  import opened Wrappers
  import opened NameOrder
  import opened Sequences
  import Hex

  datatype Json =
    | Null
    | Bool(b: bool)
    | Number(text: string)
    | Str(s: string)
    | Arr(items: seq<Json>)
    | Obj(fields: seq<Entry<Json>>)   // members in insertion order

  predicate NumberChar(c: char) {
    '0' <= c <= '9' || c == '-' || c == '+' || c == '.' || c == 'e' || c == 'E'
  }

  /** What serde_json's Value guarantees: numbers print as number text, object keys are distinct. */
  predicate WellFormed(v: Json) {
    match v
    case Number(t) => t != "" && ('0' <= t[0] <= '9' || t[0] == '-') && forall i :: 0 <= i < |t| ==> NumberChar(t[i])
    case Arr(items) => forall i :: 0 <= i < |items| ==> WellFormed(items[i])
    case Obj(fields) =>
      && (forall i, j :: 0 <= i < j < |fields| ==> fields[i].name != fields[j].name)
      && (forall i :: 0 <= i < |fields| ==> WellFormed(fields[i].value))
    case _ => true
  }

  /** Equal up to the order of object members, at any nesting. */
  ghost predicate Same(v: Json, w: Json)
    decreases v
  {
    match (v, w)
    case (Arr(a), Arr(b)) => |a| == |b| && forall i :: 0 <= i < |a| ==> Same(a[i], b[i])
    case (Obj(a), Obj(b)) =>
      |a| == |b| && forall i :: 0 <= i < |a| ==> exists j :: 0 <= j < |b| && a[i].name == b[j].name && Same(a[i].value, b[j].value)
    case _ => v == w
  }

  // ----- printing -----

  function EscapeChar(c: char): (r: string)
    ensures r != "" && r[0] != '"'
  {
    if c == '"' then ['\\', '"']
    else if c == '\\' then ['\\', '\\']
    else if c == '\U{8}' then "\\b"
    else if c == '\U{C}' then "\\f"
    else if c == '\n' then "\\n"
    else if c == '\r' then "\\r"
    else if c == '\t' then "\\t"
    else if c < ' ' then "\\u00" + [Hex.Digit(c as int / 16), Hex.Digit(c as int % 16)]
    else [c]
  }

  function Escape(s: string): string {
    if s == "" then "" else EscapeChar(s[0]) + Escape(s[1..])
  }

  function Quote(s: string): string { "\"" + Escape(s) + "\"" }

  function Canon(v: Json): string {
    match v
    case Null => "null"
    case Bool(b) => if b then "true" else "false"
    case Number(t) => t
    case Str(s) => Quote(s)
    case Arr(items) => "[" + JoinItems(Texts(items), true) + "]"
    case Obj(fields) => "{" + JoinFields(Sort(FieldTexts(fields)), true) + "}"
  }

  function Texts(items: seq<Json>): (r: seq<string>)
    ensures |r| == |items| && forall i :: 0 <= i < |items| ==> r[i] == Canon(items[i])
  {
    seq(|items|, i requires 0 <= i < |items| => Canon(items[i]))
  }

  function FieldTexts(fields: seq<Entry<Json>>): (r: seq<Entry<string>>)
    ensures |r| == |fields|
    ensures forall i :: 0 <= i < |fields| ==> r[i] == Entry(fields[i].name, Canon(fields[i].value))
  {
    seq(|fields|, i requires 0 <= i < |fields| => Entry(fields[i].name, Canon(fields[i].value)))
  }

  function Comma(first: bool): string { if first then "" else "," }

  function JoinItems(ts: seq<string>, first: bool): string
    decreases |ts|
  {
    if ts == [] then "" else Comma(first) + ts[0] + JoinItems(ts[1..], false)
  }

  function JoinFields(fs: seq<Entry<string>>, first: bool): string
    decreases |fs|
  {
    if fs == [] then "" else OneField(fs[0], first) + JoinFields(fs[1..], false)
  }

  function OneField(f: Entry<string>, first: bool): string {
    Comma(first) + Quote(f.name) + ":" + f.value
  }

  // ----- strings are self-delimiting -----

  lemma SameTail(a: string, r: string, q: string)
    requires a + r == a + q
    ensures r == q
  {
    assert r == (a + r)[|a|..] && q == (a + q)[|a|..];
  }

  lemma EmptyPrefix(x: string)
    ensures "" + x == x
  {
  }

  lemma DigitInjective(a: nat, b: nat)
    requires a < 16 && b < 16 && Hex.Digit(a) == Hex.Digit(b)
    ensures a == b
  {
  }

  /** The character an escaped text starts with, and how many characters spell it. */
  predicate Plain(c: char) {
    c != '"' && c != '\\' && c >= ' '
  }

  lemma PlainEscape(c: char)
    ensures Plain(c) ==> EscapeChar(c) == [c]
    ensures !Plain(c) ==> |EscapeChar(c)| >= 2 && EscapeChar(c)[0] == '\\'
    ensures !Plain(c) ==> (EscapeChar(c)[1] == 'u' <==> |EscapeChar(c)| == 6)
    ensures !Plain(c) && EscapeChar(c)[1] != 'u' ==> |EscapeChar(c)| == 2
  {
  }

  lemma EscapeInjective(c: char, d: char)
    requires EscapeChar(c) == EscapeChar(d)
    ensures c == d
  {
    PlainEscape(c);
    PlainEscape(d);
    if !Plain(c) && EscapeChar(c)[1] == 'u' {
      var n, m := c as int, d as int;
      assert EscapeChar(c)[4] == Hex.Digit(n / 16) && EscapeChar(c)[5] == Hex.Digit(n % 16);
      assert EscapeChar(d)[4] == Hex.Digit(m / 16) && EscapeChar(d)[5] == Hex.Digit(m % 16);
      DigitInjective(n / 16, m / 16);
      DigitInjective(n % 16, m % 16);
    }
  }

  /** Escapes form a prefix code. */
  lemma EscapePrefix(c: char, d: char, x: string, y: string)
    requires EscapeChar(c) + x == EscapeChar(d) + y
    ensures c == d && x == y
  {
    var a, b := EscapeChar(c), EscapeChar(d);
    PlainEscape(c);
    PlainEscape(d);
    var whole := a + x;
    assert whole[0] == a[0] == b[0];
    if !Plain(c) && !Plain(d) { assert whole[1] == a[1] == b[1]; }
    assert |a| == |b|;
    assert a == whole[..|a|] && b == whole[..|b|];
    EscapeInjective(c, d);
    assert x == whole[|a|..] && y == whole[|b|..];
  }

  /** An escaped text followed by a quote starts with the quote only if it is empty. */
  lemma EscapeHead(s: string, r: string)
    ensures (Escape(s) + ("\"" + r))[0] == '"' <==> s == ""
  {
    if s != "" { EscapeStep(s, r); }
  }

  lemma EscapeStep(s: string, r: string)
    requires s != ""
    ensures Escape(s) + ("\"" + r) == EscapeChar(s[0]) + (Escape(s[1..]) + ("\"" + r))
  {
  }

  lemma {:induction false} EscapeUnique(s: string, t: string, r: string, q: string)
    requires Escape(s) + ("\"" + r) == Escape(t) + ("\"" + q)
    ensures s == t && r == q
  {
    EscapeHead(s, r);
    EscapeHead(t, q);
    if s == "" {
      EmptyPrefix("\"" + r);
      EmptyPrefix("\"" + q);
      SameTail("\"", r, q);
    } else {
      EscapeStep(s, r);
      EscapeStep(t, q);
      EscapePrefix(s[0], t[0], Escape(s[1..]) + ("\"" + r), Escape(t[1..]) + ("\"" + q));
      EscapeUnique(s[1..], t[1..], r, q);
      assert s == [s[0]] + s[1..] && t == [t[0]] + t[1..];
    }
  }

  lemma QuoteText(s: string, r: string)
    ensures Quote(s) + r == "\"" + (Escape(s) + ("\"" + r))
  {
  }

  lemma QuoteUnique(s: string, t: string, r: string, q: string)
    requires Quote(s) + r == Quote(t) + q
    ensures s == t && r == q
  {
    QuoteText(s, r);
    QuoteText(t, q);
    SameTail("\"", Escape(s) + ("\"" + r), Escape(t) + ("\"" + q));
    EscapeUnique(s, t, r, q);
  }

  // ----- values are uniquely readable -----

  /** A value is followed by nothing, a separator or a closing bracket. */
  predicate Ends(r: string) {
    r == "" || r[0] == ',' || r[0] == ']' || r[0] == '}'
  }

  /** Length of the leading run of number characters. */
  function NumberRun(x: string): nat {
    if x == "" || !NumberChar(x[0]) then 0 else 1 + NumberRun(x[1..])
  }

  lemma {:induction false} NumberRunOf(t: string, r: string)
    requires (forall i :: 0 <= i < |t| ==> NumberChar(t[i])) && Ends(r)
    ensures NumberRun(t + r) == |t|
  {
    if t == "" {
      EmptyPrefix(r);
    } else {
      NumberRunOf(t[1..], r);
      assert (t + r)[1..] == t[1..] + r;
    }
  }

  lemma NumberUnique(t: string, u: string, r: string, q: string)
    requires (forall i :: 0 <= i < |t| ==> NumberChar(t[i])) && (forall i :: 0 <= i < |u| ==> NumberChar(u[i]))
    requires Ends(r) && Ends(q) && t + r == u + q
    ensures t == u && r == q
  {
    NumberRunOf(t, r);
    NumberRunOf(u, q);
    var whole := t + r;
    assert t == whole[..|t|] && u == whole[..|u|] && r == whole[|t|..] && q == whole[|u|..];
  }

  datatype Kind = NullKind | TrueKind | FalseKind | NumberKind | StrKind | ArrKind | ObjKind | NoKind

  function KindOf(v: Json): Kind {
    match v
    case Null => NullKind
    case Bool(b) => if b then TrueKind else FalseKind
    case Number(_) => NumberKind
    case Str(_) => StrKind
    case Arr(_) => ArrKind
    case Obj(_) => ObjKind
  }

  function KindOfChar(c: char): Kind {
    if c == 'n' then NullKind
    else if c == 't' then TrueKind
    else if c == 'f' then FalseKind
    else if c == '"' then StrKind
    else if c == '[' then ArrKind
    else if c == '{' then ObjKind
    else if '0' <= c <= '9' || c == '-' then NumberKind
    else NoKind
  }

  /** The first character tells the kind of value, and is never a closing bracket. */
  lemma FirstChar(v: Json)
    requires WellFormed(v)
    ensures Canon(v) != "" && KindOfChar(Canon(v)[0]) == KindOf(v)
    ensures Canon(v)[0] != ']' && Canon(v)[0] != '}' && Canon(v)[0] != ','
  {
  }

  /** Two values whose texts, each followed by a proper ending, make the same string are the same up to
      member order, and so are the endings. */
  lemma {:induction false} Unique(v: Json, w: Json, r: string, q: string)
    requires WellFormed(v) && WellFormed(w) && Ends(r) && Ends(q)
    requires Canon(v) + r == Canon(w) + q
    ensures Same(v, w) && Canon(v) == Canon(w) && r == q
    decreases v, 2
  {
    FirstChar(v);
    FirstChar(w);
    assert (Canon(v) + r)[0] == Canon(v)[0] && (Canon(w) + q)[0] == Canon(w)[0];
    match v
    case Null => SameTail("null", r, q);
    case Bool(b) => SameTail(Canon(v), r, q);
    case Number(t) => NumberUnique(t, w.text, r, q);
    case Str(s) => QuoteUnique(s, w.s, r, q);
    case Arr(_) => ArrUnique(v, w, r, q);
    case Obj(_) => ObjUnique(v, w, r, q);
  }

  lemma {:induction false} ArrUnique(v: Json, w: Json, r: string, q: string)
    requires v.Arr? && w.Arr? && WellFormed(v) && WellFormed(w)
    requires Canon(v) + r == Canon(w) + q
    ensures Same(v, w) && Canon(v) == Canon(w) && r == q
    decreases v, 1
  {
    var a, b := Texts(v.items), Texts(w.items);
    assert Canon(v) + r == "[" + (JoinItems(a, true) + ("]" + r));
    assert Canon(w) + q == "[" + (JoinItems(b, true) + ("]" + q));
    SameTail("[", JoinItems(a, true) + ("]" + r), JoinItems(b, true) + ("]" + q));
    assert a[0..] == a && b[0..] == b;
    ItemsUnique(v, w, 0, true, r, q);
    forall i | 0 <= i < |v.items| ensures Same(v.items[i], w.items[i]) {
      assert a[i] == b[i];
      Unique(v.items[i], w.items[i], "", "");
    }
  }

  lemma JoinItemsStep(ts: seq<string>, k: nat, first: bool, close: string)
    requires k < |ts|
    ensures JoinItems(ts[k..], first) + close == Comma(first) + (ts[k] + (JoinItems(ts[k + 1..], false) + close))
  {
    assert ts[k..][1..] == ts[k + 1..];
  }

  lemma JoinItemsEnds(ts: seq<string>, r: string)
    ensures Ends(JoinItems(ts, false) + ("]" + r))
  {
    if ts != [] { assert (JoinItems(ts, false) + ("]" + r))[0] == ','; }
  }

  /** What is left of an item list starts with the closing bracket exactly at its end. */
  lemma ItemsHead(v: Json, k: nat, first: bool, r: string)
    requires v.Arr? && WellFormed(v) && k <= |v.items|
    ensures (JoinItems(Texts(v.items)[k..], first) + ("]" + r))[0] == ']' <==> k == |v.items|
  {
    if k < |v.items| {
      JoinItemsStep(Texts(v.items), k, first, "]" + r);
      FirstChar(v.items[k]);
    }
  }

  /** From index k on, two item lists that print alike before a closing bracket are the same texts. */
  lemma {:induction false} ItemsUnique(v: Json, w: Json, k: nat, first: bool, r: string, q: string)
    requires v.Arr? && w.Arr? && WellFormed(v) && WellFormed(w) && k <= |v.items| && k <= |w.items|
    requires JoinItems(Texts(v.items)[k..], first) + ("]" + r) == JoinItems(Texts(w.items)[k..], first) + ("]" + q)
    ensures Texts(v.items)[k..] == Texts(w.items)[k..] && r == q
    decreases v, 0, |v.items| - k
  {
    var a, b := Texts(v.items), Texts(w.items);
    ItemsHead(v, k, first, r);
    ItemsHead(w, k, first, q);
    if k == |a| {
      EmptyPrefix("]" + r);
      EmptyPrefix("]" + q);
      SameTail("]", r, q);
    } else {
      var x, y := JoinItems(a[k + 1..], false) + ("]" + r), JoinItems(b[k + 1..], false) + ("]" + q);
      JoinItemsStep(a, k, first, "]" + r);
      JoinItemsStep(b, k, first, "]" + q);
      SameTail(Comma(first), a[k] + x, b[k] + y);
      JoinItemsEnds(a[k + 1..], r);
      JoinItemsEnds(b[k + 1..], q);
      Unique(v.items[k], w.items[k], x, y);
      ItemsUnique(v, w, k + 1, false, r, q);
      assert a[k..] == [a[k]] + a[k + 1..] && b[k..] == [b[k]] + b[k + 1..];
    }
  }

  /** One printed member before the rest of an object. */
  function MemberText(first: bool, name: string, value: string, rest: string): string {
    Comma(first) + (Quote(name) + (":" + (value + rest)))
  }

  lemma JoinFieldsStep(fs: seq<Entry<string>>, first: bool, close: string)
    requires fs != []
    ensures JoinFields(fs, first) + close
         == MemberText(first, fs[0].name, fs[0].value, JoinFields(fs[1..], false) + close)
  {
    var c, n, v, j := Comma(first), Quote(fs[0].name), fs[0].value, JoinFields(fs[1..], false);
    assert OneField(fs[0], first) + j == c + n + ":" + v + j;
    assert c + n + ":" + v + j + close == c + (n + (":" + (v + (j + close))));
  }

  lemma JoinFieldsEnds(fs: seq<Entry<string>>, r: string)
    ensures Ends(JoinFields(fs, false) + ("}" + r))
  {
    if fs != [] { JoinFieldsStep(fs, false, "}" + r); }
  }

  lemma FieldsHead(fs: seq<Entry<string>>, first: bool, r: string)
    ensures (JoinFields(fs, first) + ("}" + r))[0] == '}' <==> fs == []
  {
    if fs != [] { JoinFieldsStep(fs, first, "}" + r); }
  }

  /** Members with the same text have the same name, and their values and rests make the same string. */
  lemma MemberUnique(first: bool, n: string, v: string, x: string, n': string, v': string, x': string)
    requires MemberText(first, n, v, x) == MemberText(first, n', v', x')
    ensures n == n' && v + x == v' + x'
  {
    SameTail(Comma(first), Quote(n) + (":" + (v + x)), Quote(n') + (":" + (v' + x')));
    QuoteUnique(n, n', ":" + (v + x), ":" + (v' + x'));
    SameTail(":", v + x, v' + x');
  }

  lemma MemberOf(v: Json, e: Entry<string>) returns (i: nat)
    requires v.Obj? && WellFormed(v) && e in FieldTexts(v.fields)
    ensures i < |v.fields| && Canon(v.fields[i].value) == e.value && WellFormed(v.fields[i].value)
  {
    i :| 0 <= i < |v.fields| && FieldTexts(v.fields)[i] == e;
  }

  /** Two lists of printed members that print alike before a closing brace are the same. */
  lemma {:induction false} FieldsUnique(v: Json, w: Json, s: seq<Entry<string>>, t: seq<Entry<string>>, first: bool,
                                        r: string, q: string)
    requires v.Obj? && w.Obj? && WellFormed(v) && WellFormed(w)
    requires (forall e :: e in s ==> e in FieldTexts(v.fields)) && (forall e :: e in t ==> e in FieldTexts(w.fields))
    requires JoinFields(s, first) + ("}" + r) == JoinFields(t, first) + ("}" + q)
    ensures s == t && r == q
    decreases v, 0, |s|
  {
    FieldsHead(s, first, r);
    FieldsHead(t, first, q);
    if s == [] {
      EmptyPrefix("}" + r);
      EmptyPrefix("}" + q);
      SameTail("}", r, q);
    } else {
      var x, y := JoinFields(s[1..], false) + ("}" + r), JoinFields(t[1..], false) + ("}" + q);
      JoinFieldsStep(s, first, "}" + r);
      JoinFieldsStep(t, first, "}" + q);
      MemberUnique(first, s[0].name, s[0].value, x, t[0].name, t[0].value, y);
      JoinFieldsEnds(s[1..], r);
      JoinFieldsEnds(t[1..], q);
      var i := MemberOf(v, s[0]);
      var j := MemberOf(w, t[0]);
      Unique(v.fields[i].value, w.fields[j].value, x, y);
      FieldsUnique(v, w, s[1..], t[1..], false, r, q);
      assert s == [s[0]] + s[1..] && t == [t[0]] + t[1..];
    }
  }

  lemma ObjText(v: Json, r: string)
    requires v.Obj?
    ensures Canon(v) + r == "{" + (JoinFields(Sort(FieldTexts(v.fields)), true) + ("}" + r))
  {
  }

  /** Equal sorted members mean the same printed members, in some order. */
  lemma SortedMembers(a: seq<Entry<string>>, b: seq<Entry<string>>, e: Entry<string>)
    requires Sort(a) == Sort(b) && e in a
    ensures e in b
  {
    SortPermutes(a);
    SortPermutes(b);
    InSame(a, Sort(a), e);
    InSame(b, Sort(b), e);
  }

  lemma SortWithin(a: seq<Entry<string>>)
    ensures forall e :: e in Sort(a) ==> e in a
  {
    SortPermutes(a);
    forall e | e in Sort(a) ensures e in a { InSame(Sort(a), a, e); }
  }

  lemma {:induction false} ObjUnique(v: Json, w: Json, r: string, q: string)
    requires v.Obj? && w.Obj? && WellFormed(v) && WellFormed(w)
    requires Canon(v) + r == Canon(w) + q
    ensures Same(v, w) && Canon(v) == Canon(w) && r == q
    decreases v, 1
  {
    var a, b := FieldTexts(v.fields), FieldTexts(w.fields);
    ObjText(v, r);
    ObjText(w, q);
    SameTail("{", JoinFields(Sort(a), true) + ("}" + r), JoinFields(Sort(b), true) + ("}" + q));
    SortWithin(a);
    SortWithin(b);
    FieldsUnique(v, w, Sort(a), Sort(b), true, r, q);
    ObjSame(v, w);
  }

  /** The member of w that matches member i of v. */
  lemma {:induction false} MemberMatch(v: Json, w: Json, i: nat) returns (j: nat)
    requires v.Obj? && w.Obj? && WellFormed(v) && WellFormed(w) && i < |v.fields|
    requires Sort(FieldTexts(v.fields)) == Sort(FieldTexts(w.fields))
    ensures j < |w.fields| && v.fields[i].name == w.fields[j].name && Same(v.fields[i].value, w.fields[j].value)
    decreases v, 0, 0
  {
    var a, b := FieldTexts(v.fields), FieldTexts(w.fields);
    SortedMembers(a, b, a[i]);
    j :| 0 <= j < |b| && b[j] == a[i];
    Unique(v.fields[i].value, w.fields[j].value, "", "");
  }

  /** Objects with the same sorted printed members are the same up to member order. */
  lemma {:induction false} ObjSame(v: Json, w: Json)
    requires v.Obj? && w.Obj? && WellFormed(v) && WellFormed(w)
    requires Sort(FieldTexts(v.fields)) == Sort(FieldTexts(w.fields))
    ensures Same(v, w)
    decreases v, 0, 1
  {
    var a, b := FieldTexts(v.fields), FieldTexts(w.fields);
    assert |a| == |Sort(a)| == |Sort(b)| == |b|;
    forall i | 0 <= i < |v.fields|
      ensures exists j :: 0 <= j < |w.fields| && v.fields[i].name == w.fields[j].name
                          && Same(v.fields[i].value, w.fields[j].value)
    {
      var j := MemberMatch(v, w, i);
    }
  }

  // ----- order independence and the whole law -----

  lemma DistinctConsistent(fields: seq<Entry<Json>>)
    requires forall i, j :: 0 <= i < j < |fields| ==> fields[i].name != fields[j].name
    ensures Consistent(FieldTexts(fields))
  {
    var s := FieldTexts(fields);
    forall i, j | 0 <= i < |s| && 0 <= j < |s| && s[i].name == s[j].name ensures i == j {
      assert fields[i].name == fields[j].name;
    }
  }

  lemma StillIn<T>(t: seq<T>, k: nat, x: T)
    requires k < |t| && x in t && x != t[k]
    ensures x in Without(t, k)
  {
    var m :| 0 <= m < |t| && t[m] == x;
    assert Without(t, k)[if m < k then m else m - 1] == x;
  }

  /** Lists of distinct names and equal length, one within the other, hold the same entries. */
  lemma {:induction false} SameEntries(s: seq<Entry<string>>, t: seq<Entry<string>>)
    requires |s| == |t|
    requires forall i, j :: 0 <= i < j < |s| ==> s[i].name != s[j].name
    requires forall i :: 0 <= i < |s| ==> s[i] in t
    ensures multiset(s) == multiset(t)
    decreases |s|
  {
    if s != [] {
      var k :| 0 <= k < |t| && t[k] == s[0];
      var t' := Without(t, k);
      WithoutMultiset(t, k);
      forall i | 0 <= i < |s[1..]| ensures s[1..][i] in t' {
        assert s[1..][i] == s[i + 1];
        StillIn(t, k, s[i + 1]);
      }
      SameEntries(s[1..], t');
      assert s == [s[0]] + s[1..];
    }
  }

  lemma {:induction false} SameMeansEqualText(v: Json, w: Json)
    requires WellFormed(v) && WellFormed(w) && Same(v, w)
    ensures Canon(v) == Canon(w)
    decreases v
  {
    match (v, w)
    case (Arr(a), Arr(b)) =>
      forall i | 0 <= i < |a| ensures Texts(a)[i] == Texts(b)[i] {
        SameMeansEqualText(a[i], b[i]);
      }
      assert Texts(a) == Texts(b);
    case (Obj(a), Obj(b)) =>
      var s, t := FieldTexts(a), FieldTexts(b);
      forall i | 0 <= i < |s| ensures s[i] in t {
        var j :| 0 <= j < |b| && a[i].name == b[j].name && Same(a[i].value, b[j].value);
        SameMeansEqualText(a[i].value, b[j].value);
        assert t[j] == s[i];
      }
      SameEntries(s, t);
      DistinctConsistent(a);
      SortForgetsOrder(s, t);
    case _ =>
  }

  /** Canonical texts are equal exactly for values that are equal up to member order. */
  lemma CanonicalIff(v: Json, w: Json)
    requires WellFormed(v) && WellFormed(w)
    ensures Canon(v) == Canon(w) <==> Same(v, w)
  {
    if Canon(v) == Canon(w) { Unique(v, w, "", ""); }
    if Same(v, w) { SameMeansEqualText(v, w); }
  }

  // ----- the writer -----

  lemma {:induction false} InsertPrinted(e: Entry<Json>, es: seq<Entry<Json>>)
    ensures FieldTexts(Insert(e, es)) == Insert(Entry(e.name, Canon(e.value)), FieldTexts(es))
  {
    if es != [] && !NameLe(e.name, es[0].name) {
      InsertPrinted(e, es[1..]);
      assert FieldTexts(es)[1..] == FieldTexts(es[1..]);
    }
  }

  /** Sorting members and printing values commute. */
  lemma {:induction false} SortPrinted(es: seq<Entry<Json>>)
    ensures FieldTexts(Sort(es)) == Sort(FieldTexts(es))
  {
    if es != [] {
      SortPrinted(es[1..]);
      InsertPrinted(es[0], Sort(es[1..]));
      assert FieldTexts(es)[1..] == FieldTexts(es[1..]);
    }
  }

  lemma SortedMemberIn(fields: seq<Entry<Json>>, i: nat) returns (j: nat)
    requires i < |fields|
    ensures j < |fields| && Sort(fields)[i].value == fields[j].value
  {
    var e := Sort(fields)[i];
    SortPermutes(fields);
    InSame(Sort(fields), fields, e);
    j :| 0 <= j < |fields| && fields[j] == e;
  }

  lemma {:induction false} JoinItemsSnoc(ts: seq<string>, t: string, first: bool)
    ensures JoinItems(ts + [t], first) == JoinItems(ts, first) + (Comma(first && ts == []) + t)
    decreases |ts|
  {
    if ts == [] {
      assert ts + [t] == [t] && [t][1..] == [];
    } else {
      assert (ts + [t])[1..] == ts[1..] + [t];
      JoinItemsSnoc(ts[1..], t, false);
    }
  }

  function Flat(xs: seq<string>): string {
    if xs == [] then "" else xs[0] + Flat(xs[1..])
  }

  lemma {:induction false} FlatSnoc(xs: seq<string>, x: string)
    ensures Flat(xs + [x]) == Flat(xs) + x
  {
    if xs == [] {
      assert xs + [x] == [x];
      assert Flat([x]) == x + Flat([x][1..]);
    } else {
      assert (xs + [x])[1..] == xs[1..] + [x];
      FlatSnoc(xs[1..], x);
    }
  }

  function OneFields(fs: seq<Entry<string>>, first: bool): (r: seq<string>)
    ensures |r| == |fs|
    ensures forall i :: 0 <= i < |fs| ==> r[i] == OneField(fs[i], first && i == 0)
  {
    seq(|fs|, i requires 0 <= i < |fs| => OneField(fs[i], first && i == 0))
  }

  lemma {:induction false} FlatFields(fs: seq<Entry<string>>, first: bool)
    ensures Flat(OneFields(fs, first)) == JoinFields(fs, first)
    decreases |fs|
  {
    if fs != [] {
      FlatFields(fs[1..], false);
      assert OneFields(fs, first)[1..] == OneFields(fs[1..], false);
    }
  }

  /** `write_canonical`: appends to the output, recursing inside its loops. */
  method WriteCanonical(v: Json, out0: string) returns (out: string)
    ensures out == out0 + Canon(v)
    decreases v, 3
  {
    match v {
      case Obj(fields) =>
        out := WriteObject(v, out0);
      case Arr(items) =>
        out := WriteArray(v, out0);
      case _ =>
        out := out0 + Canon(v);
    }
  }

  lemma Append(base: string, j: string, c: string, t: string)
    ensures ((base + j) + c) + t == base + (j + (c + t))
  {
  }

  lemma Wrap(out0: string, open: string, j: string, close: string)
    ensures ((out0 + open) + j) + close == out0 + (open + j + close)
  {
  }

  method WriteArray(v: Json, out0: string) returns (out: string)
    requires v.Arr?
    ensures out == out0 + Canon(v)
    decreases v, 0
  {
    var items := v.items;
    ghost var ts, base := Texts(items), out0 + "[";
    out := out0 + "[";
    for i := 0 to |items|
      invariant out == base + JoinItems(ts[..i], true)
    {
      ghost var j := JoinItems(ts[..i], true);
      JoinItemsSnoc(ts[..i], ts[i], true);
      Append(base, j, Comma(i == 0), ts[i]);
      assert ts[..i + 1] == ts[..i] + [ts[i]];
      out := out + (if i > 0 then "," else "");
      out := WriteCanonical(items[i], out);
    }
    assert ts[..|items|] == ts;
    Wrap(out0, "[", JoinItems(ts, true), "]");
    out := out + "]";
  }

  /** Where each sorted member stood. */
  lemma SortedPositions(fields: seq<Entry<Json>>) returns (pos: seq<nat>)
    ensures |pos| == |fields| && forall i :: 0 <= i < |pos| ==>
              pos[i] < |fields| && Sort(fields)[i].value == fields[pos[i]].value
  {
    pos := [];
    for i := 0 to |fields|
      invariant |pos| == i && forall k :: 0 <= k < i ==>
                  pos[k] < |fields| && Sort(fields)[k].value == fields[pos[k]].value
    {
      var j := SortedMemberIn(fields, i);
      pos := pos + [j];
    }
  }

  method WriteObject(v: Json, out0: string) returns (out: string)
    requires v.Obj?
    ensures out == out0 + Canon(v)
    decreases v, 2
  {
    var keys := Sort(v.fields);
    ghost var pos := SortedPositions(v.fields);
    out := WriteMembers(v, keys, pos, out0 + "{");
    SortPrinted(v.fields);
    Wrap(out0, "{", JoinFields(FieldTexts(keys), true), "}");
    out := out + "}";
  }

  method WriteMembers(v: Json, keys: seq<Entry<Json>>, ghost pos: seq<nat>, base: string) returns (out: string)
    requires v.Obj? && |pos| == |keys|
    requires forall i :: 0 <= i < |keys| ==> pos[i] < |v.fields| && keys[i].value == v.fields[pos[i]].value
    ensures out == base + JoinFields(FieldTexts(keys), true)
    decreases v, 1
  {
    ghost var xs := OneFields(FieldTexts(keys), true);
    out := base;
    for i := 0 to |keys|
      invariant out == base + Flat(xs[..i])
    {
      out := WriteMember(v, keys[i], pos[i], i == 0, out, xs[i]);
      FlatPrefix(base, xs, i);
    }
    assert xs[..|keys|] == xs;
    FlatFields(FieldTexts(keys), true);
  }

  lemma FlatPrefix(base: string, xs: seq<string>, i: nat)
    requires i < |xs|
    ensures (base + Flat(xs[..i])) + xs[i] == base + Flat(xs[..i + 1])
  {
    FlatSnoc(xs[..i], xs[i]);
    assert xs[..i + 1] == xs[..i] + [xs[i]];
    Reassociate(base, Flat(xs[..i]), xs[i]);
  }

  lemma Reassociate(a: string, b: string, c: string)
    ensures (a + b) + c == a + (b + c)
  {
  }

  method WriteMember(v: Json, key: Entry<Json>, ghost j: nat, first: bool, out0: string, ghost text: string)
    returns (out: string)
    requires v.Obj? && j < |v.fields| && key.value == v.fields[j].value
    requires text == OneField(Entry(key.name, Canon(key.value)), first)
    ensures out == out0 + text
    decreases v, 0
  {
    var c, q := if first then "" else ",", Quote(key.name);
    out := WriteCanonical(key.value, ((out0 + c) + q) + ":");
    FieldAppended(out0, c, q, Canon(key.value));
  }

  lemma FieldAppended(out: string, c: string, q: string, t: string)
    ensures (((out + c) + q) + ":") + t == out + (c + q + ":" + t)
  {
  }

  // ----- the text is JSON -----

  /** A string read by section 7 of RFC 8259, without its quotation marks. */
  function Unescape(t: string): Result<string> {
    if t == "" then Ok("")
    else if t[0] == '"' || t[0] < ' ' then Err
    else if t[0] != '\\' then Prefixed(t[0], Unescape(t[1..]))
    else if |t| < 2 then Err
    else
      match t[1]
      case '"' => Prefixed('"', Unescape(t[2..]))
      case '\\' => Prefixed('\\', Unescape(t[2..]))
      case '/' => Prefixed('/', Unescape(t[2..]))
      case 'b' => Prefixed('\U{8}', Unescape(t[2..]))
      case 'f' => Prefixed('\U{C}', Unescape(t[2..]))
      case 'n' => Prefixed('\U{A}', Unescape(t[2..]))
      case 'r' => Prefixed('\U{D}', Unescape(t[2..]))
      case 't' => Prefixed('\U{9}', Unescape(t[2..]))
      case 'u' =>
        if |t| < 6 then Err
        else
          (match FourDigits(t[2], t[3], t[4], t[5])
           case Ok(n) => if n < 0xD800 then Prefixed(n as char, Unescape(t[6..])) else Err
           case Err => Err)
      case _ => Err
  }

  function Prefixed(c: char, r: Result<string>): Result<string> {
    if r.Ok? then Ok([c] + r.value) else Err
  }

  function FourDigits(a: char, b: char, c: char, d: char): Result<nat> {
    match (Hex.DigitValue(a), Hex.DigitValue(b), Hex.DigitValue(c), Hex.DigitValue(d))
    case (Ok(w), Ok(x), Ok(y), Ok(z)) => Ok(4096 * w + 256 * x + 16 * y + z)
    case _ => Err
  }

  lemma UnescapeShort(c: char, rest: string)
    requires |EscapeChar(c)| == 2
    ensures Unescape(EscapeChar(c) + rest) == Prefixed(c, Unescape(rest))
  {
    var t := EscapeChar(c) + rest;
    assert t[0] == '\\' && t[1] == EscapeChar(c)[1] && t[2..] == rest;
  }

  lemma UnescapeLong(c: char, rest: string)
    requires |EscapeChar(c)| == 6
    ensures Unescape(EscapeChar(c) + rest) == Prefixed(c, Unescape(rest))
  {
    var t, n := EscapeChar(c) + rest, c as int;
    Hex.DigitRoundTrip(n / 16);
    Hex.DigitRoundTrip(n % 16);
    assert t[0] == '\\' && t[1] == 'u' && t[2] == '0' && t[3] == '0' && t[6..] == rest;
    assert t[4] == Hex.Digit(n / 16) && t[5] == Hex.Digit(n % 16);
    assert FourDigits(t[2], t[3], t[4], t[5]) == Ok(n);
  }

  lemma UnescapeOne(c: char, rest: string)
    ensures Unescape(EscapeChar(c) + rest) == Prefixed(c, Unescape(rest))
  {
    if |EscapeChar(c)| == 1 {
      assert (EscapeChar(c) + rest)[1..] == rest;
    } else if |EscapeChar(c)| == 2 {
      UnescapeShort(c, rest);
    } else {
      UnescapeLong(c, rest);
    }
  }

  /** What is printed for a string reads back as it. */
  lemma {:induction false} UnescapeEscape(s: string)
    ensures Unescape(Escape(s)) == Ok(s)
  {
    if s != "" {
      UnescapeOne(s[0], Escape(s[1..]));
      UnescapeEscape(s[1..]);
      assert s == [s[0]] + s[1..];
    }
  }

  lemma JoinedItems(t: string, u: string)
    ensures JoinItems([], true) == "" && JoinItems([t], true) == t && JoinItems([t, u], true) == t + "," + u
  {
    assert [t][1..] == [] && [t, u][1..] == [u] && [u][1..] == [];
    assert JoinItems([u], false) == "," + u;
  }

  lemma JoinedFields(a: string, t: string, b: string, u: string)
    ensures JoinFields([], true) == "" && JoinFields([Entry(a, t)], true) == Quote(a) + ":" + t
    ensures JoinFields([Entry(a, t), Entry(b, u)], true) == Quote(a) + ":" + t + "," + Quote(b) + ":" + u
  {
    OneJoined(Entry(a, t), true);
    OneJoined(Entry(b, u), false);
    var fs := [Entry(a, t), Entry(b, u)];
    assert fs[1..] == [Entry(b, u)];
    assert JoinFields(fs, true) == OneField(fs[0], true) + JoinFields(fs[1..], false);
  }

  lemma OneJoined(f: Entry<string>, first: bool)
    ensures JoinFields([f], first) == OneField(f, first)
  {
    assert [f][1..] == [];
  }

  lemma SortTwo(e: Entry<string>, f: Entry<string>)
    requires NameLe(e.name, f.name) && e.name != f.name
    ensures Sort([f, e]) == [e, f] && Sort([e]) == [e]
  {
    assert multiset([f, e]) == multiset{e, f} == multiset([e, f]);
    SortForgetsOrder([f, e], [e, f]);
    SortFixesSorted([e, f]);
    SortFixesSorted([e]);
  }

  /** The literals and strings as JSON writes them. */
  lemma ScalarTexts(s: string)
    ensures Canon(Null) == "null" && Canon(Bool(true)) == "true" && Canon(Bool(false)) == "false"
    ensures Canon(Str(s)) == "\"" + Escape(s) + "\""
  {
  }

  lemma ArrayTexts(x: Json, y: Json)
    ensures Canon(Arr([])) == "[" + "" + "]" && Canon(Arr([x])) == "[" + Canon(x) + "]"
    ensures Canon(Arr([x, y])) == "[" + (Canon(x) + "," + Canon(y)) + "]"
  {
    JoinedItems(Canon(x), Canon(y));
    assert Texts([]) == [] && Texts([x]) == [Canon(x)] && Texts([x, y]) == [Canon(x), Canon(y)];
  }

  /** Members come in the order of their names, whatever order they were inserted in. */
  lemma ObjectTexts(x: Json, y: Json, a: string, b: string)
    requires a != b && NameLe(a, b)
    ensures Canon(Obj([])) == "{" + "" + "}" && Canon(Obj([Entry(a, x)])) == "{" + (Quote(a) + ":" + Canon(x)) + "}"
    ensures Canon(Obj([Entry(b, y), Entry(a, x)]))
         == "{" + (Quote(a) + ":" + Canon(x) + "," + Quote(b) + ":" + Canon(y)) + "}"
  {
    JoinedFields(a, Canon(x), b, Canon(y));
    SortTwo(Entry(a, Canon(x)), Entry(b, Canon(y)));
    assert FieldTexts([]) == [] && FieldTexts([Entry(a, x)]) == [Entry(a, Canon(x))];
    assert FieldTexts([Entry(b, y), Entry(a, x)]) == [Entry(b, Canon(y)), Entry(a, Canon(x))];
  }
}
