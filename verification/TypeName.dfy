// Types by their structure, and the names that they are printed with.  A type is looked up by its
// printed name alone, so that name has to say everything about it.

module TypeName {

  datatype Member = Member(name: string, ty: Shape)

  datatype Shape =
    | Atom(name: string)                                        // primitive and declared types
    | Instance(template: string, arguments: seq<Shape>)         // of a struct or union template
    | Function(parameters: seq<Shape>, result: Shape)
    | Pointer(base: Shape)
    | Array(count: nat, base: Shape)
    | Slice(base: Shape)
    | Struct(members: seq<Member>)                              // declared in place, without a name
    | Union(members: seq<Member>)

  // ---------- Names ----------

  function Digit(d: nat): char
    requires d < 10
  {
    ('0' as int + d) as char
  }

  function Decimal(n: nat): string {
    if n < 10 then [Digit(n)] else Decimal(n / 10) + [Digit(n % 10)]
  }

  function Name(t: Shape): string
    decreases t
  {
    match t
    case Atom(name) => name
    case Instance(template, arguments) => template + "[[" + Names(arguments) + "]]"
    case Function(parameters, result) => "func" + "(" + Names(parameters) + ") " + Name(result)
    case Pointer(base) => "*" + Name(base)
    case Array(count, base) => "[" + Decimal(count) + "]" + Name(base)
    case Slice(base) => "[]" + Name(base)
    case Struct(members) => "struct" + " { " + MembersText(members)
    case Union(members) => "union" + " { " + MembersText(members)
  }

  function Names(ts: seq<Shape>): string
    decreases ts, 1
  {
    if ts == [] then "" else Name(ts[0]) + MoreNames(ts[1..])
  }

  function MoreNames(ts: seq<Shape>): string
    decreases ts
  {
    if ts == [] then "" else ", " + Name(ts[0]) + MoreNames(ts[1..])
  }

  function MembersText(ms: seq<Member>): string
    decreases ms, 1
  {
    if ms == [] then " }" else MemberText(ms[0]) + MoreMembers(ms[1..])
  }

  function MoreMembers(ms: seq<Member>): string
    decreases ms
  {
    if ms == [] then " }" else " " + MemberText(ms[0]) + MoreMembers(ms[1..])
  }

  function MemberText(m: Member): string
    decreases m
  {
    "var " + m.name + ": " + Name(m.ty) + ";"
  }

  // ---------- Words ----------

  predicate WordChar(c: char) {
    c !in {'(', ')', '[', ']', '{', '}', ',', ';', ' ', '*'}
  }

  predicate IsWord(s: string) {
    s != "" && forall c :: c in s ==> WordChar(c)
  }

  /** The longest prefix of word characters. */
  function Word(s: string): string {
    if s == "" || !WordChar(s[0]) then "" else [s[0]] + Word(s[1..])
  }

  predicate Ends(rest: string) {
    rest == "" || !WordChar(rest[0])
  }

  lemma {:induction false} WordOf(w: string, rest: string)
    requires (forall c :: c in w ==> WordChar(c)) && Ends(rest)
    ensures Word(w + rest) == w
    decreases |w|
  {
    if w == "" {
      assert w + rest == rest;
    } else {
      assert (w + rest)[0] == w[0] && (w + rest)[1..] == w[1..] + rest;
      WordOf(w[1..], rest);
    }
  }

  lemma {:induction false} SameWord(a: string, x: string, b: string, y: string)
    requires (forall c :: c in a ==> WordChar(c)) && Ends(x) && (forall c :: c in b ==> WordChar(c)) && Ends(y)
    requires a + x == b + y
    ensures a == b && x == y
  {
    WordOf(a, x);
    WordOf(b, y);
    Cancel(a, x, y);
  }

  lemma {:induction false} Cancel(a: string, x: string, y: string)
    requires a + x == a + y
    ensures x == y
  {
    assert (a + x)[|a|..] == x && (a + y)[|a|..] == y;
  }

  // ---------- Decimal numbers ----------

  function Value(s: string): int {
    if s == "" then 0 else 10 * Value(s[..|s| - 1]) + (s[|s| - 1] as int - '0' as int)
  }

  lemma {:induction false} DecimalValue(n: nat)
    ensures Value(Decimal(n)) == n && IsWord(Decimal(n))
    decreases n
  {
    if n < 10 {
      assert [Digit(n)][..0] == "";
    } else {
      DecimalValue(n / 10);
      var s := Decimal(n / 10);
      assert (s + [Digit(n % 10)])[..|s|] == s;
    }
  }

  // ---------- Where a name ends ----------

  predicate Opens(c: char) {
    c == '(' || c == '[' || c == '{'
  }

  predicate Closes(c: char) {
    c == ')' || c == ']' || c == '}'
  }

  predicate Separates(c: char) {
    c == ',' || c == ';'
  }

  /** Brackets pair up inside the name, `depth` of them opened before it, and separators stand inside brackets. */
  predicate Scan(s: string, depth: nat) {
    if s == "" then depth == 0
    else if Opens(s[0]) then Scan(s[1..], depth + 1)
    else if Closes(s[0]) then depth > 0 && Scan(s[1..], depth - 1)
    else if Separates(s[0]) then depth > 0 && Scan(s[1..], depth)
    else Scan(s[1..], depth)
  }

  predicate Delimits(rest: string) {
    rest == "" || Closes(rest[0]) || Separates(rest[0])
  }

  /** A name is delimited by what follows it: no other name is a prefix of the same text. */
  lemma {:induction false} Cut(a: string, x: string, b: string, y: string, depth: nat)
    requires Scan(a, depth) && Scan(b, depth) && a + x == b + y && Delimits(x) && Delimits(y)
    ensures a == b && x == y
    decreases |a|
  {
    if a != "" && b != "" {
      assert (a + x)[0] == a[0] && (b + y)[0] == b[0];
      assert (a + x)[1..] == a[1..] + x && (b + y)[1..] == b[1..] + y;
      var d := if Opens(a[0]) then depth + 1 else if Closes(a[0]) then depth - 1 else depth;
      Cut(a[1..], x, b[1..], y, d);
      assert a == [a[0]] + a[1..] && b == [b[0]] + b[1..];
    } else if b != "" {
      assert a + x == x;
      ScannedStarts(b, y);
    } else {
      assert b + y == y;
      if a != "" {
        ScannedStarts(a, x);
      } else {
        assert a + x == x;
      }
    }
  }

  lemma {:induction false} ScannedStarts(b: string, y: string)
    requires b != "" && Scan(b, 0)
    ensures !Delimits(b + y)
  {
    assert (b + y)[0] == b[0];
  }

  lemma {:induction false} ScanJoin(a: string, d: nat, b: string, e: nat)
    requires Scan(a, d) && Scan(b, e)
    ensures Scan(a + b, d + e)
    decreases |a|
  {
    if a == "" {
      assert a + b == b;
    } else {
      assert (a + b)[0] == a[0] && (a + b)[1..] == a[1..] + b;
      var d' := if Opens(a[0]) then d + 1 else if Closes(a[0]) then d - 1 else d;
      ScanJoin(a[1..], d', b, e);
    }
  }

  lemma {:induction false} ScanWord(w: string, rest: string, depth: nat)
    requires (forall c :: c in w ==> WordChar(c)) && Scan(rest, depth)
    ensures Scan(w + rest, depth)
    decreases |w|
  {
    if w == "" {
      assert w + rest == rest;
    } else {
      assert (w + rest)[0] == w[0] && (w + rest)[1..] == w[1..] + rest && WordChar(w[0]);
      ScanWord(w[1..], rest, depth);
    }
  }

  lemma {:induction false} ScanOne(c: char, rest: string, depth: nat)
    ensures Scan([c] + rest, depth) ==
              if Opens(c) then Scan(rest, depth + 1)
              else if Closes(c) then depth > 0 && Scan(rest, depth - 1)
              else if Separates(c) then depth > 0 && Scan(rest, depth)
              else Scan(rest, depth)
  {
    assert ([c] + rest)[1..] == rest;
  }

  // ---------- Well-named types ----------

  predicate WellNamed(t: Shape)
    decreases t
  {
    match t
    case Atom(name) => IsWord(name)
    case Instance(template, arguments) => IsWord(template) && forall a :: a in arguments ==> WellNamed(a)
    case Function(parameters, result) => (forall a :: a in parameters ==> WellNamed(a)) && WellNamed(result)
    case Pointer(base) => WellNamed(base)
    case Array(_, base) => WellNamed(base)
    case Slice(base) => WellNamed(base)
    case Struct(members) => forall m :: m in members ==> MemberNamed(m)
    case Union(members) => forall m :: m in members ==> MemberNamed(m)
  }

  predicate MemberNamed(m: Member)
    decreases m
  {
    IsWord(m.name) && ':' !in m.name && WellNamed(m.ty)
  }

  lemma {:induction false} NameScans(t: Shape)
    requires WellNamed(t)
    ensures Scan(Name(t), 0) && Name(t) != "" && !Delimits(Name(t))
    decreases t, 2
  {
    hide Scan, Delimits, Names, MembersText, Decimal;
    match t
    case Atom(name) =>
      WordScans(name);
    case Instance(template, arguments) =>
      ClosingScan();
      NamesScan(arguments, "]]", 2);
      BracketsScan(template, Names(arguments));
    case Function(parameters, result) =>
      NameScans(result);
      SignatureScan(parameters, result);
    case Pointer(base) =>
      NameScans(base);
      PointerScan(Name(base));
    case Array(count, base) =>
      NameScans(base);
      ArrayScan(count, Name(base));
    case Slice(base) =>
      NameScans(base);
      SliceScan(Name(base));
    case Struct(members) =>
      MembersScan(members);
      BracesScan("struct", MembersText(members));
    case Union(members) =>
      MembersScan(members);
      BracesScan("union", MembersText(members));
  }

  lemma {:induction false} WordScans(w: string)
    requires IsWord(w)
    ensures Scan(w, 0) && !Delimits(w)
  {
    assert w + "" == w && WordChar(w[0]);
    ScanWord(w, "", 0);
  }

  lemma {:induction false} ClosingScan()
    ensures Scan("]]", 2)
  {
    assert Scan("]", 1);
  }

  lemma {:induction false} SignatureScan(parameters: seq<Shape>, result: Shape)
    requires (forall a :: a in parameters ==> WellNamed(a)) && Scan(Name(result), 0)
    ensures var s := "func" + "(" + Names(parameters) + ") " + Name(result); Scan(s, 0) && !Delimits(s)
    decreases parameters, 2
  {
    hide Names, Name, WellNamed;
    var last := [' '] + Name(result);
    ScanOne(' ', Name(result), 0);
    ScanOne(')', last, 1);
    NamesScan(parameters, [')'] + last, 1);
    ParenthesesScan(Names(parameters), last);
    assert "func" + "(" + Names(parameters) + ") " + Name(result) == "func" + (['('] + (Names(parameters) + ([')'] + last)));
  }

  lemma {:induction false} PointerScan(b: string)
    requires Scan(b, 0)
    ensures Scan("*" + b, 0) && !Delimits("*" + b)
  {
    ScanOne('*', b, 0);
  }

  lemma {:induction false} ArrayScan(count: nat, b: string)
    requires Scan(b, 0)
    ensures var s := "[" + Decimal(count) + "]" + b; Scan(s, 0) && !Delimits(s)
  {
    DecimalValue(count);
    ScanOne(']', b, 1);
    ScanWord(Decimal(count), [']'] + b, 1);
    ScanOne('[', Decimal(count) + ([']'] + b), 0);
    assert "[" + Decimal(count) + "]" + b == ['['] + (Decimal(count) + ([']'] + b));
  }

  lemma {:induction false} SliceScan(b: string)
    requires Scan(b, 0)
    ensures Scan("[]" + b, 0) && !Delimits("[]" + b)
  {
    ScanOne(']', b, 1);
    ScanOne('[', [']'] + b, 0);
    assert "[]" + b == ['['] + ([']'] + b);
  }

  lemma {:induction false} BracketsScan(word: string, inner: string)
    requires IsWord(word) && Scan(inner + "]]", 2)
    ensures Scan(word + "[[" + inner + "]]", 0) && !Delimits(word + "[[" + inner + "]]")
  {
    var rest := inner + "]]";
    ScanOne('[', rest, 1);
    ScanOne('[', ['['] + rest, 0);
    ScanWord(word, ['['] + (['['] + rest), 0);
    assert word + "[[" + inner + "]]" == word + (['['] + (['['] + rest));
    assert WordChar(word[0]);
  }

  lemma {:induction false} ParenthesesScan(inner: string, last: string)
    requires Scan(inner + ([')'] + last), 1)
    ensures Scan("func" + (['('] + (inner + ([')'] + last))), 0)
  {
    ScanOne('(', inner + ([')'] + last), 0);
    ScanWord("func", ['('] + (inner + ([')'] + last)), 0);
  }

  lemma {:induction false} BracesScan(word: string, text: string)
    requires IsWord(word) && Scan(text, 1)
    ensures Scan(word + " { " + text, 0) && !Delimits(word + " { " + text)
  {
    ScanOne(' ', text, 1);
    ScanOne('{', [' '] + text, 0);
    ScanOne(' ', ['{'] + ([' '] + text), 0);
    var rest := [' '] + (['{'] + ([' '] + text));
    ScanWord(word, rest, 0);
    assert word + " { " + text == word + rest;
    assert WordChar(word[0]) && (word + rest)[0] == word[0];
  }

  lemma {:induction false} NamesScan(ts: seq<Shape>, rest: string, depth: nat)
    requires (forall t :: t in ts ==> WellNamed(t)) && depth > 0 && Scan(rest, depth)
    ensures Scan(Names(ts) + rest, depth)
    decreases ts, 1
  {
    if ts == [] {
      assert Names(ts) + rest == rest;
    } else {
      NameScans(ts[0]);
      MoreNamesScan(ts[1..], rest, depth);
      ScanJoin(Name(ts[0]), 0, MoreNames(ts[1..]) + rest, depth);
      assert Names(ts) + rest == Name(ts[0]) + (MoreNames(ts[1..]) + rest);
    }
  }

  lemma {:induction false} MoreNamesScan(ts: seq<Shape>, rest: string, depth: nat)
    requires (forall t :: t in ts ==> WellNamed(t)) && depth > 0 && Scan(rest, depth)
    ensures Scan(MoreNames(ts) + rest, depth)
    decreases ts, 0
  {
    hide Scan, Name, WellNamed, Delimits;
    if ts == [] {
      assert MoreNames(ts) + rest == rest;
    } else {
      NameScans(ts[0]);
      MoreNamesScan(ts[1..], rest, depth);
      var tail := Name(ts[0]) + (MoreNames(ts[1..]) + rest);
      ScanJoin(Name(ts[0]), 0, MoreNames(ts[1..]) + rest, depth);
      ScanOne(' ', tail, depth);
      ScanOne(',', [' '] + tail, depth);
      assert MoreNames(ts) + rest == [','] + ([' '] + tail);
    }
  }

  lemma {:induction false} MembersScan(ms: seq<Member>)
    requires forall m :: m in ms ==> MemberNamed(m)
    ensures Scan(MembersText(ms), 1)
    decreases ms, 1
  {
    if ms == [] {
      assert Scan("}", 1);
    } else {
      MoreMembersScan(ms[1..]);
      MemberScan(ms[0], MoreMembers(ms[1..]));
    }
  }

  lemma {:induction false} MoreMembersScan(ms: seq<Member>)
    requires forall m :: m in ms ==> MemberNamed(m)
    ensures Scan(MoreMembers(ms), 1)
    decreases ms, 0
  {
    if ms == [] {
      assert Scan("}", 1);
    } else {
      MoreMembersScan(ms[1..]);
      MemberScan(ms[0], MoreMembers(ms[1..]));
      hide Scan, MemberText;
      ScanOne(' ', MemberText(ms[0]) + MoreMembers(ms[1..]), 1);
      assert MoreMembers(ms) == [' '] + (MemberText(ms[0]) + MoreMembers(ms[1..]));
    }
  }

  lemma {:induction false} MemberScan(m: Member, rest: string)
    requires MemberNamed(m) && Scan(rest, 1)
    ensures Scan(MemberText(m) + rest, 1)
    decreases m
  {
    hide Scan, Name;
    NameScans(m.ty);
    var s1 := [';'] + rest;
    ScanOne(';', rest, 1);
    var s2 := Name(m.ty) + s1;
    ScanJoin(Name(m.ty), 0, s1, 1);
    var s3 := [':'] + ([' '] + s2);
    ScanOne(' ', s2, 1);
    ScanOne(':', [' '] + s2, 1);
    ScanWord(m.name, s3, 1);
    ScanOne(' ', m.name + s3, 1);
    ScanWord("var", [' '] + (m.name + s3), 1);
    assert MemberText(m) + rest == "var" + ([' '] + (m.name + s3));
  }

  // ---------- Names are unique ----------

  /** Types with one printed name are one type. */
  lemma {:induction false} SameName(a: Shape, b: Shape)
    requires WellNamed(a) && WellNamed(b) && Name(a) == Name(b)
    ensures a == b
    decreases a, 2
  {
    SplitName(a);
    SplitName(b);
    SameWord(First(a), Rest(a), First(b), Rest(b));
    SameKind(a, b);
    hide Name, WellNamed;
    SameParts(a, b);
  }

  /** The word that a name begins with. */
  function First(t: Shape): string {
    match t
    case Atom(name) => name
    case Instance(template, _) => template
    case Function(_, _) => "func"
    case Struct(_) => "struct"
    case Union(_) => "union"
    case _ => ""
  }

  function Rest(t: Shape): string {
    match t
    case Atom(name) => ""
    case Instance(_, arguments) => "[[" + (Names(arguments) + "]]")
    case Function(parameters, result) => "(" + (Names(parameters) + (") " + Name(result)))
    case Pointer(base) => "*" + Name(base)
    case Array(count, base) => "[" + (Decimal(count) + ("]" + Name(base)))
    case Slice(base) => "[" + ("]" + Name(base))
    case Struct(members) => " { " + MembersText(members)
    case Union(members) => " { " + MembersText(members)
  }

  lemma {:induction false} SplitName(t: Shape)
    requires WellNamed(t)
    ensures Name(t) == First(t) + Rest(t) && (forall c :: c in First(t) ==> WordChar(c)) && Ends(Rest(t))
  {
    if t.Function? || t.Array? || t.Instance? {
      SplitLong(t);
    } else {
      hide Names, MembersText, Decimal;
    }
  }

  lemma {:induction false} SplitLong(t: Shape)
    requires WellNamed(t) && (t.Function? || t.Array? || t.Instance?)
    ensures Name(t) == First(t) + Rest(t) && (forall c :: c in First(t) ==> WordChar(c)) && Ends(Rest(t))
  {
    hide Names, Decimal;
    if t.Function? {
      var ns, r := Names(t.parameters), Name(t.result);
      assert Name(t) == "func" + "(" + ns + ") " + r;
      assert "func" + "(" + ns + ") " + r == "func" + ("(" + (ns + (") " + r)));
    } else if t.Array? {
      var d, b := Decimal(t.count), Name(t.base);
      assert Name(t) == "[" + d + "]" + b;
      assert "[" + d + "]" + b == "" + ("[" + (d + ("]" + b)));
    } else {
      var ns := Names(t.arguments);
      assert Name(t) == t.template + "[[" + ns + "]]";
      assert t.template + "[[" + ns + "]]" == t.template + ("[[" + (ns + "]]"));
    }
  }

  lemma {:induction false} SameKind(a: Shape, b: Shape)
    requires WellNamed(a) && WellNamed(b) && First(a) == First(b) && Rest(a) == Rest(b)
    ensures a.Atom? == b.Atom? && a.Instance? == b.Instance? && a.Function? == b.Function? && a.Pointer? == b.Pointer?
    ensures a.Array? == b.Array? && a.Slice? == b.Slice? && a.Struct? == b.Struct? && a.Union? == b.Union?
  {
    NextChar(a);
    NextChar(b);
    hide Names, MembersText, Decimal, Name, Rest;
    assert "struct" != "union" by {
      assert |"struct"| == 6 && |"union"| == 5;
    }
  }

  /** What follows the first word tells one kind of type from another. */
  lemma {:induction false} NextChar(t: Shape)
    requires WellNamed(t)
    ensures t.Atom? <==> Rest(t) == ""
    ensures t.Instance? || t.Array? || t.Slice? <==> Rest(t) != "" && Rest(t)[0] == '['
    ensures t.Slice? ==> Rest(t)[1] == ']'
    ensures t.Array? ==> WordChar(Rest(t)[1])
    ensures t.Function? <==> Rest(t) != "" && Rest(t)[0] == '('
    ensures t.Pointer? <==> Rest(t) != "" && Rest(t)[0] == '*'
    ensures t.Struct? || t.Union? <==> Rest(t) != "" && Rest(t)[0] == ' '
    ensures First(t) == "" <==> t.Pointer? || t.Array? || t.Slice?
  {
    hide Names, MembersText, Name;
    if t.Array? {
      DecimalValue(t.count);
      assert Rest(t)[1] == Decimal(t.count)[0];
    }
  }

  lemma {:induction false} SameParts(a: Shape, b: Shape)
    requires WellNamed(a) && WellNamed(b) && First(a) == First(b) && Rest(a) == Rest(b)
    requires a.Atom? == b.Atom? && a.Instance? == b.Instance? && a.Function? == b.Function? && a.Pointer? == b.Pointer?
    requires a.Array? == b.Array? && a.Slice? == b.Slice? && a.Struct? == b.Struct? && a.Union? == b.Union?
    ensures a == b
    decreases a, 1
  {
    hide Names, MembersText, Decimal, Name;
    match a
    case Atom(_) =>
    case Instance(_, arguments) =>
      Cancel("[[", Names(arguments) + "]]", Names(b.arguments) + "]]");
      SameNames(arguments, "]]", b.arguments, "]]");
    case Function(parameters, result) =>
      var x, y := ") " + Name(result), ") " + Name(b.result);
      Cancel("(", Names(parameters) + x, Names(b.parameters) + y);
      SameNames(parameters, x, b.parameters, y);
      Cancel(") ", Name(result), Name(b.result));
      SameName(result, b.result);
    case Pointer(base) =>
      Cancel("*", Name(base), Name(b.base));
      SameName(base, b.base);
    case Array(count, base) =>
      var x, y := "]" + Name(base), "]" + Name(b.base);
      Cancel("[", Decimal(count) + x, Decimal(b.count) + y);
      DecimalValue(count);
      DecimalValue(b.count);
      SameWord(Decimal(count), x, Decimal(b.count), y);
      Cancel("]", Name(base), Name(b.base));
      SameName(base, b.base);
    case Slice(base) =>
      Cancel("[", "]" + Name(base), "]" + Name(b.base));
      Cancel("]", Name(base), Name(b.base));
      SameName(base, b.base);
    case Struct(members) =>
      Cancel(" { ", MembersText(members), MembersText(b.members));
      SameMembers(members, b.members);
    case Union(members) =>
      Cancel(" { ", MembersText(members), MembersText(b.members));
      SameMembers(members, b.members);
  }

  predicate AfterNames(rest: string) {
    rest != "" && Closes(rest[0])
  }

  lemma {:induction false} SameNames(ts: seq<Shape>, x: string, us: seq<Shape>, y: string)
    requires (forall t :: t in ts ==> WellNamed(t)) && (forall u :: u in us ==> WellNamed(u))
    requires AfterNames(x) && AfterNames(y) && Names(ts) + x == Names(us) + y
    ensures ts == us && x == y
    decreases ts, 1
  {
    BeginsName(ts, x);
    BeginsName(us, y);
    if ts != [] && us != [] {
      var x', y' := MoreNames(ts[1..]) + x, MoreNames(us[1..]) + y;
      assert Names(ts) + x == Name(ts[0]) + x' && Names(us) + y == Name(us[0]) + y';
      hide Names, Name, WellNamed;
      MoreDelimit(ts[1..], x);
      MoreDelimit(us[1..], y);
      hide MoreNames;
      NameScans(ts[0]);
      NameScans(us[0]);
      Cut(Name(ts[0]), x', Name(us[0]), y', 0);
      SameName(ts[0], us[0]);
      SameMoreNames(ts[1..], x, us[1..], y);
      assert ts == [ts[0]] + ts[1..] && us == [us[0]] + us[1..];
    }
  }

  lemma {:induction false} BeginsName(ts: seq<Shape>, x: string)
    requires (forall t :: t in ts ==> WellNamed(t)) && AfterNames(x)
    ensures var s := Names(ts) + x; s != "" && (if ts == [] then s == x else !Closes(s[0]) && !Delimits(s))
  {
    if ts == [] {
      assert Names(ts) + x == x;
    } else {
      NameScans(ts[0]);
      assert (Names(ts) + x)[0] == Name(ts[0])[0];
    }
  }

  lemma {:induction false} MoreDelimit(ts: seq<Shape>, x: string)
    requires AfterNames(x)
    ensures Delimits(MoreNames(ts) + x)
    ensures ts == [] <==> Closes((MoreNames(ts) + x)[0])
  {
    if ts == [] {
      assert MoreNames(ts) + x == x;
    }
  }

  lemma {:induction false} SameMoreNames(ts: seq<Shape>, x: string, us: seq<Shape>, y: string)
    requires (forall t :: t in ts ==> WellNamed(t)) && (forall u :: u in us ==> WellNamed(u))
    requires AfterNames(x) && AfterNames(y) && MoreNames(ts) + x == MoreNames(us) + y
    ensures ts == us && x == y
    decreases ts, 0
  {
    MoreDelimit(ts, x);
    MoreDelimit(us, y);
    if ts == [] && us == [] {
      assert MoreNames(ts) + x == x && MoreNames(us) + y == y;
    } else {
      var x', y' := MoreNames(ts[1..]) + x, MoreNames(us[1..]) + y;
      assert MoreNames(ts) + x == ", " + (Name(ts[0]) + x') && MoreNames(us) + y == ", " + (Name(us[0]) + y');
      hide Name, WellNamed, MoreNames;
      Cancel(", ", Name(ts[0]) + x', Name(us[0]) + y');
      MoreDelimit(ts[1..], x);
      MoreDelimit(us[1..], y);
      NameScans(ts[0]);
      NameScans(us[0]);
      Cut(Name(ts[0]), x', Name(us[0]), y', 0);
      SameName(ts[0], us[0]);
      SameMoreNames(ts[1..], x, us[1..], y);
      assert ts == [ts[0]] + ts[1..] && us == [us[0]] + us[1..];
    }
  }

  lemma {:induction false} SameMembers(ms: seq<Member>, ns: seq<Member>)
    requires (forall m :: m in ms ==> MemberNamed(m)) && (forall n :: n in ns ==> MemberNamed(n))
    requires MembersText(ms) == MembersText(ns)
    ensures ms == ns
    decreases ms, 1
  {
    FirstOfMembers(ms);
    FirstOfMembers(ns);
    if ms != [] && ns != [] {
      hide MemberText, MoreMembers, MemberNamed;
      SameMember(ms[0], MoreMembers(ms[1..]), ns[0], MoreMembers(ns[1..]));
      SameMoreMembers(ms[1..], ns[1..]);
      assert ms == [ms[0]] + ms[1..] && ns == [ns[0]] + ns[1..];
    }
  }

  lemma {:induction false} FirstOfMembers(ms: seq<Member>)
    ensures MembersText(ms) != "" && |MoreMembers(ms)| >= 2
    ensures MembersText(ms)[0] == if ms == [] then ' ' else 'v'
    ensures MoreMembers(ms)[0] == ' ' && MoreMembers(ms)[1] == if ms == [] then '}' else 'v'
  {
    hide Name;
    if ms != [] {
      assert MemberText(ms[0])[0] == 'v';
    }
  }

  lemma {:induction false} SameMoreMembers(ms: seq<Member>, ns: seq<Member>)
    requires (forall m :: m in ms ==> MemberNamed(m)) && (forall n :: n in ns ==> MemberNamed(n))
    requires MoreMembers(ms) == MoreMembers(ns)
    ensures ms == ns
    decreases ms, 0
  {
    FirstOfMembers(ms);
    FirstOfMembers(ns);
    if ms != [] && ns != [] {
      assert MoreMembers(ms) == " " + (MemberText(ms[0]) + MoreMembers(ms[1..]));
      assert MoreMembers(ns) == " " + (MemberText(ns[0]) + MoreMembers(ns[1..]));
      hide MemberText, MoreMembers, MemberNamed;
      Cancel(" ", MemberText(ms[0]) + MoreMembers(ms[1..]), MemberText(ns[0]) + MoreMembers(ns[1..]));
      SameMember(ms[0], MoreMembers(ms[1..]), ns[0], MoreMembers(ns[1..]));
      SameMoreMembers(ms[1..], ns[1..]);
      assert ms == [ms[0]] + ms[1..] && ns == [ns[0]] + ns[1..];
    }
  }

  lemma {:induction false} WithColon(w: string)
    requires IsWord(w)
    ensures forall c :: c in w + ":" ==> WordChar(c)
  {
    assert forall c :: c in w + ":" ==> c in w || c == ':';
  }

  lemma {:induction false} SameMember(m: Member, x: string, n: Member, y: string)
    requires MemberNamed(m) && MemberNamed(n) && MemberText(m) + x == MemberText(n) + y
    ensures m == n && x == y
    decreases m
  {
    var x1, y1 := ";" + x, ";" + y;
    var x2, y2 := " " + (Name(m.ty) + x1), " " + (Name(n.ty) + y1);
    var x3, y3 := m.name + (":" + x2), n.name + (":" + y2);
    assert MemberText(m) + x == "var " + x3 && MemberText(n) + y == "var " + y3;
    hide Name, MemberText;
    Cancel("var ", x3, y3);
    WithColon(m.name);
    WithColon(n.name);
    assert m.name + ":" + x2 == x3 && n.name + ":" + y2 == y3;
    SameWord(m.name + ":", x2, n.name + ":", y2);
    assert (m.name + ":")[..|m.name|] == m.name && (n.name + ":")[..|n.name|] == n.name;
    Cancel(" ", Name(m.ty) + x1, Name(n.ty) + y1);
    NameScans(m.ty);
    NameScans(n.ty);
    Cut(Name(m.ty), x1, Name(n.ty), y1, 0);
    Cancel(";", x, y);
    SameName(m.ty, n.ty);
  }
}
