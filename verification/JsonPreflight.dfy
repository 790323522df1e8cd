/**
 The JSON preflight: a flat scan that counts brackets, commas and colons before any value
 is built, against the tree the text renders (sections 4, 5 and 7 of RFC 8259), and the
 recursive bounds applied to that tree afterwards.
 */
module JsonPreflight {
  import opened Numerals
  import opened Prelude

  const MAX_JSON_DEPTH := 32
  const MAX_JSON_NODES := 200_000
  const MAX_JSON_STRING_CHARS := 8_192
  const MAX_JSON_LIST_ITEMS := 100_000
  const MAX_JSON_OBJECT_KEYS := 512
  const MAX_RAW_STRING := MAX_JSON_STRING_CHARS * 6 + 2

  // ---------- texts and the values they render ----------

  /** One unit of a string body: a plain character, a two-character escape, or `\u` and four hex digits. */
  datatype Piece = Plain(c: char) | Simple(c: char) | Unicode(digits: string)

  predicate IsHex(c: char)
  {
    DigitValue(c) < 16
  }

  predicate PieceOk(p: Piece)
  {
    match p
    case Plain(c) => c != '"' && c != '\\'
    case Simple(c) => c in {'"', '\\', '/', 'b', 'f', 'n', 'r', 't'}
    case Unicode(digits) => |digits| == 4 && forall i | 0 <= i < 4 :: IsHex(digits[i])
  }

  predicate BodyOk(body: seq<Piece>)
  {
    forall i | 0 <= i < |body| :: PieceOk(body[i])
  }

  /** A value with every blank of its rendering: an item or member carries the blanks around it. */
  datatype Json =
    | Literal(text: string)
    | Str(body: seq<Piece>)
    | Arr(items: seq<Item>, hollow: string)
    | Obj(members: seq<Member>, hollow: string)

  datatype Item = Item(before: string, value: Json, after: string)

  datatype Member = Member(beforeKey: string, key: seq<Piece>, afterKey: string, item: Item)

  /** Characters the scan passes over: everything but quotes, brackets, commas and colons. */
  predicate Quiet(c: char)
  {
    c !in {'"', '[', ']', '{', '}', ',', ':'}
  }

  predicate QuietText(s: string)
  {
    forall i | 0 <= i < |s| :: Quiet(s[i])
  }

  predicate WellFormed(j: Json)
    decreases j
  {
    match j
    case Literal(text) => QuietText(text)
    case Str(body) => BodyOk(body)
    case Arr(items, hollow) => QuietText(hollow) && WellFormedItems(items)
    case Obj(members, hollow) => QuietText(hollow) && WellFormedMembers(members)
  }

  predicate WellFormedItem(item: Item)
    decreases item
  {
    QuietText(item.before) && WellFormed(item.value) && QuietText(item.after)
  }

  predicate WellFormedItems(items: seq<Item>)
    decreases items
  {
    items == [] || (WellFormedItems(items[..|items| - 1]) && WellFormedItem(items[|items| - 1]))
  }

  predicate WellFormedMember(m: Member)
    decreases m
  {
    QuietText(m.beforeKey) && BodyOk(m.key) && QuietText(m.afterKey) && WellFormedItem(m.item)
  }

  predicate WellFormedMembers(members: seq<Member>)
    decreases members
  {
    members == [] || (WellFormedMembers(members[..|members| - 1]) && WellFormedMember(members[|members| - 1]))
  }

  function RenderPiece(p: Piece): (s: string)
  {
    match p
    case Plain(c) => [c]
    case Simple(c) => ['\\', c]
    case Unicode(digits) => ['\\', 'u'] + digits
  }

  function RenderBody(body: seq<Piece>): (s: string)
  {
    if body == [] then "" else RenderBody(body[..|body| - 1]) + RenderPiece(body[|body| - 1])
  }

  function RenderString(body: seq<Piece>): (s: string)
  {
    "\"" + RenderBody(body) + "\""
  }

  function Render(j: Json): (s: string)
    decreases j
  {
    match j
    case Literal(text) => text
    case Str(body) => RenderString(body)
    case Arr(items, hollow) => "[" + (if items == [] then hollow else RenderItems(items)) + "]"
    case Obj(members, hollow) => "{" + (if members == [] then hollow else RenderMembers(members)) + "}"
  }

  function RenderItem(item: Item): (s: string)
    decreases item
  {
    item.before + Render(item.value) + item.after
  }

  function RenderItems(items: seq<Item>): (s: string)
    decreases items
  {
    if items == [] then ""
    else
      RenderItems(items[..|items| - 1]) + (if |items| == 1 then "" else ",") + RenderItem(items[|items| - 1])
  }

  function RenderMember(m: Member): (s: string)
    decreases m
  {
    m.beforeKey + RenderString(m.key) + m.afterKey + ":" + RenderItem(m.item)
  }

  function RenderMembers(members: seq<Member>): (s: string)
    decreases members
  {
    if members == [] then ""
    else
      RenderMembers(members[..|members| - 1]) + (if |members| == 1 then "" else ",") +
      RenderMember(members[|members| - 1])
  }

  // ---------- what the tree holds ----------

  /** How many containers enclose the innermost point of a value. */
  function Nesting(j: Json): (n: nat)
    decreases j
  {
    match j
    case Literal(_) => 0
    case Str(_) => 0
    case Arr(items, _) => 1 + NestingItems(items)
    case Obj(members, _) => 1 + NestingMembers(members)
  }

  function NestingItem(item: Item): (n: nat) decreases item { Nesting(item.value) }

  function NestingItems(items: seq<Item>): (n: nat)
    decreases items
  {
    if items == [] then 0 else Max(NestingItems(items[..|items| - 1]), NestingItem(items[|items| - 1]))
  }

  function NestingMember(m: Member): (n: nat) decreases m { NestingItem(m.item) }

  function NestingMembers(members: seq<Member>): (n: nat)
    decreases members
  {
    if members == [] then 0 else Max(NestingMembers(members[..|members| - 1]), NestingMember(members[|members| - 1]))
  }

  /** Opening brackets, commas and colons outside strings. */
  function Structural(j: Json): (n: nat)
    decreases j
  {
    match j
    case Literal(_) => 0
    case Str(_) => 0
    case Arr(items, _) => 1 + StructuralItems(items)
    case Obj(members, _) => 1 + StructuralMembers(members)
  }

  function StructuralItem(item: Item): (n: nat) decreases item { Structural(item.value) }

  function StructuralItems(items: seq<Item>): (n: nat)
    decreases items
  {
    if items == [] then 0
    else StructuralItems(items[..|items| - 1]) + (if |items| == 1 then 0 else 1) + StructuralItem(items[|items| - 1])
  }

  function StructuralMember(m: Member): (n: nat) decreases m { 1 + StructuralItem(m.item) }

  function StructuralMembers(members: seq<Member>): (n: nat)
    decreases members
  {
    if members == [] then 0
    else
      StructuralMembers(members[..|members| - 1]) + (if |members| == 1 then 0 else 1) +
      StructuralMember(members[|members| - 1])
  }

  /** The characters of a string body as written. */
  function RawLength(body: seq<Piece>): (n: nat)
  {
    if body == [] then 0
    else
      RawLength(body[..|body| - 1]) +
      match body[|body| - 1] case Plain(_) => 1 case Simple(_) => 2 case Unicode(_) => 6
  }

  /** The longest string or key, as written. */
  function LongestRaw(j: Json): (n: nat)
    decreases j
  {
    match j
    case Literal(_) => 0
    case Str(body) => RawLength(body)
    case Arr(items, _) => LongestRawItems(items)
    case Obj(members, _) => LongestRawMembers(members)
  }

  function LongestRawItem(item: Item): (n: nat) decreases item { LongestRaw(item.value) }

  function LongestRawItems(items: seq<Item>): (n: nat)
    decreases items
  {
    if items == [] then 0 else Max(LongestRawItems(items[..|items| - 1]), LongestRawItem(items[|items| - 1]))
  }

  function LongestRawMember(m: Member): (n: nat)
    decreases m
  {
    Max(RawLength(m.key), LongestRawItem(m.item))
  }

  function LongestRawMembers(members: seq<Member>): (n: nat)
    decreases members
  {
    if members == [] then 0
    else Max(LongestRawMembers(members[..|members| - 1]), LongestRawMember(members[|members| - 1]))
  }

  // ---------- the flat scan ----------

  datatype Scan = Scan(
    depth: nat, maximumDepth: nat, structural: nat, inString: bool, escaped: bool, rawLength: nat, longest: nat)

  const FRESH := Scan(0, 0, 0, false, false, 0, 0)

  /** One character, with nothing refused yet; `longest` is the longest string closed so far. */
  function Feed(st: Scan, c: char): (r: Scan)
  {
    if st.inString then
      if st.escaped then st.(escaped := false, rawLength := st.rawLength + 1)
      else if c == '\\' then st.(escaped := true, rawLength := st.rawLength + 1)
      else if c == '"' then st.(inString := false, longest := Max(st.longest, st.rawLength))
      else st.(rawLength := st.rawLength + 1)
    else if c == '"' then st.(inString := true, rawLength := 0)
    else if c == '[' || c == '{' then
      st.(depth := st.depth + 1, maximumDepth := Max(st.maximumDepth, st.depth + 1), structural := st.structural + 1)
    else if c == '}' || c == ']' then st.(depth := if st.depth == 0 then 0 else st.depth - 1)
    else if c == ',' || c == ':' then st.(structural := st.structural + 1)
    else st
  }

  function FeedAll(st: Scan, s: string): (r: Scan)
  {
    if s == [] then st else Feed(FeedAll(st, s[..|s| - 1]), s[|s| - 1])
  }

  lemma {:induction false} FeedConcat(st: Scan, a: string, b: string)
    ensures FeedAll(st, a + b) == FeedAll(FeedAll(st, a), b)
    decreases |b|
  {
    hide Feed;
    if b == [] {
      assert a + b == a;
    } else {
      assert (a + b)[..|a + b| - 1] == a + b[..|b| - 1];
      FeedConcat(st, a, b[..|b| - 1]);
    }
  }

  lemma FeedOne(st: Scan, c: char)
    ensures FeedAll(st, [c]) == Feed(st, c)
  {
    assert [c][..0] == [];
  }

  lemma {:induction false} FeedQuiet(st: Scan, s: string)
    requires !st.inString && QuietText(s)
    ensures FeedAll(st, s) == st
  {
    if s != [] { FeedQuiet(st, s[..|s| - 1]); }
  }

  lemma OpenAndClose(st: Scan, body: seq<Piece>)
    requires !st.inString && !st.escaped
    ensures FeedAll(st, "\"") == st.(inString := true, rawLength := 0)
    ensures FeedAll(st.(inString := true, rawLength := RawLength(body)), "\"") ==
            st.(rawLength := RawLength(body), longest := Max(st.longest, RawLength(body)))
  {
    FeedOne(st, '"');
    FeedOne(st.(inString := true, rawLength := RawLength(body)), '"');
  }

  lemma FeedNothing(st: Scan)
    ensures FeedAll(st, "") == st
  {
  }

  lemma FeedEscape(st: Scan, c: char)
    requires st.inString && !st.escaped
    ensures FeedAll(st, ['\\', c]) == st.(rawLength := st.rawLength + 2)
  {
    assert ['\\', c] == ['\\'] + [c];
    FeedConcat(st, ['\\'], [c]);
    FeedOne(st, '\\');
    FeedOne(st.(escaped := true, rawLength := st.rawLength + 1), c);
  }

  lemma {:induction false} FeedHex(st: Scan, digits: string)
    requires st.inString && !st.escaped && forall i | 0 <= i < |digits| :: IsHex(digits[i])
    ensures FeedAll(st, digits) == st.(rawLength := st.rawLength + |digits|)
  {
    if digits != [] { FeedHex(st, digits[..|digits| - 1]); }
  }

  lemma FeedPiece(st: Scan, p: Piece)
    requires st.inString && !st.escaped && PieceOk(p)
    ensures FeedAll(st, RenderPiece(p)) ==
            st.(rawLength := st.rawLength + match p case Plain(_) => 1 case Simple(_) => 2 case Unicode(_) => 6)
  {
    match p
    case Plain(c) => FeedOne(st, c);
    case Simple(c) => FeedEscape(st, c);
    case Unicode(digits) =>
      FeedEscape(st, 'u');
      FeedConcat(st, ['\\', 'u'], digits);
      FeedHex(st.(rawLength := st.rawLength + 2), digits);
  }

  lemma {:induction false} FeedBody(st: Scan, body: seq<Piece>)
    requires st.inString && !st.escaped && BodyOk(body)
    ensures FeedAll(st, RenderBody(body)) == st.(rawLength := st.rawLength + RawLength(body))
  {
    hide Feed, FeedAll;
    if body == [] {
      FeedNothing(st);
    } else {
      var most, last := body[..|body| - 1], body[|body| - 1];
      FeedBody(st, most);
      FeedConcat(st, RenderBody(most), RenderPiece(last));
      FeedPiece(st.(rawLength := st.rawLength + RawLength(most)), last);
    }
  }

  /** A string, whatever brackets and escapes it holds, changes only the longest length. */
  lemma FeedString(st: Scan, body: seq<Piece>)
    requires !st.inString && !st.escaped && BodyOk(body)
    ensures var r := FeedAll(st, RenderString(body));
            r == st.(rawLength := r.rawLength, longest := Max(st.longest, RawLength(body)))
  {
    hide Feed, RenderBody, FeedAll;
    var begun := st.(inString := true, rawLength := 0);
    OpenAndClose(st, body);
    FeedBody(begun, body);
    FeedConcat(st, "\"", RenderBody(body));
    FeedConcat(st, "\"" + RenderBody(body), "\"");
  }

  /** What scanning a whole value does to the counters. */
  ghost predicate Counts(st: Scan, r: Scan, nesting: nat, structural: nat, longest: nat)
  {
    r == Scan(st.depth, Max(st.maximumDepth, if nesting == 0 then 0 else st.depth + nesting),
              st.structural + structural, false, false, r.rawLength, Max(st.longest, longest))
  }

  ghost predicate Ready(st: Scan)
  {
    !st.inString && !st.escaped
  }

  lemma CountsThen(st: Scan, a: string, n: nat, k: nat, l: nat, b: string, n': nat, k': nat, l': nat)
    requires Counts(st, FeedAll(st, a), n, k, l)
    requires Counts(FeedAll(st, a), FeedAll(FeedAll(st, a), b), n', k', l')
    ensures Counts(st, FeedAll(st, a + b), Max(n, n'), k + k', Max(l, l'))
  {
    hide FeedAll;
    FeedConcat(st, a, b);
  }

  lemma QuietCounts(st: Scan, s: string)
    requires Ready(st) && QuietText(s)
    ensures Counts(st, FeedAll(st, s), 0, 0, 0)
  {
    FeedQuiet(st, s);
  }

  lemma StringCounts(st: Scan, body: seq<Piece>)
    requires Ready(st) && BodyOk(body)
    ensures Counts(st, FeedAll(st, RenderString(body)), 0, 0, RawLength(body))
  {
    hide FeedAll, RenderString;
    FeedString(st, body);
  }

  /** A comma or a colon. */
  lemma MarkCounts(st: Scan, mark: string)
    requires Ready(st) && (mark == "," || mark == ":")
    ensures Counts(st, FeedAll(st, mark), 0, 1, 0)
  {
    FeedOne(st, mark[0]);
    assert mark == [mark[0]];
  }

  /** After an opening bracket. */
  function Entered(st: Scan): (r: Scan)
  {
    st.(depth := st.depth + 1, maximumDepth := Max(st.maximumDepth, st.depth + 1), structural := st.structural + 1)
  }

  /** Brackets around counted content. */
  lemma BracketsCount(st: Scan, left: string, inner: string, right: string, n: nat, k: nat, l: nat)
    requires Ready(st) && ((left == "[" && right == "]") || (left == "{" && right == "}"))
    requires Counts(Entered(st), FeedAll(Entered(st), inner), n, k, l)
    ensures Counts(st, FeedAll(st, left + inner + right), 1 + n, 1 + k, l)
  {
    hide FeedAll;
    FeedOne(st, left[0]);
    assert left == [left[0]] && right == [right[0]];
    FeedConcat(st, left, inner);
    FeedConcat(st, left + inner, right);
    FeedOne(FeedAll(Entered(st), inner), right[0]);
  }

  lemma EmptyIsQuiet()
    ensures QuietText("")
  {
  }

  lemma SeparatorCounts(st: Scan, a: string, n: nat, k: nat, l: nat, comma: string)
    requires Counts(st, FeedAll(st, a), n, k, l) && (comma == "" || comma == ",")
    ensures Counts(st, FeedAll(st, a + comma), n, k + |comma|, l)
  {
    hide FeedAll;
    if comma == "" {
      assert a + comma == a;
    } else {
      MarkCounts(FeedAll(st, a), ",");
      CountsThen(st, a, n, k, l, ",", 0, 1, 0);
    }
  }

  /** The flat scan of a rendering counts exactly what the tree holds. */
  lemma {:induction false} ValueCounts(st: Scan, j: Json)
    requires Ready(st) && WellFormed(j)
    ensures Counts(st, FeedAll(st, Render(j)), Nesting(j), Structural(j), LongestRaw(j))
    decreases j
  {
    hide FeedAll, Counts;
    match j
    case Literal(text) =>
      QuietCounts(st, text);
    case Str(body) =>
      StringCounts(st, body);
    case Arr(items, hollow) =>
      var inner := if items == [] then hollow else RenderItems(items);
      if items == [] { QuietCounts(Entered(st), hollow); } else { ItemsCount(Entered(st), items); }
      BracketsCount(st, "[", inner, "]", NestingItems(items), StructuralItems(items), LongestRawItems(items));
    case Obj(members, hollow) =>
      var inner := if members == [] then hollow else RenderMembers(members);
      if members == [] { QuietCounts(Entered(st), hollow); } else { MembersCount(Entered(st), members); }
      BracketsCount(st, "{", inner, "}", NestingMembers(members), StructuralMembers(members),
                    LongestRawMembers(members));
  }

  lemma CountsReady(st: Scan, r: Scan, n: nat, k: nat, l: nat)
    requires Counts(st, r, n, k, l)
    ensures Ready(r)
  {
  }

  lemma {:induction false} ItemCounts(st: Scan, item: Item)
    requires Ready(st) && WellFormedItem(item)
    ensures Counts(st, FeedAll(st, RenderItem(item)), NestingItem(item), StructuralItem(item), LongestRawItem(item))
    decreases item
  {
    hide FeedAll, Counts, Render, Nesting, Structural, LongestRaw, WellFormed, QuietText;
    var text := Render(item.value);
    QuietCounts(st, item.before);
    var st1 := FeedAll(st, item.before);
    CountsReady(st, st1, 0, 0, 0);
    ValueCounts(st1, item.value);
    CountsThen(st, item.before, 0, 0, 0, text, NestingItem(item), StructuralItem(item), LongestRawItem(item));
    var st2 := FeedAll(st, item.before + text);
    CountsReady(st, st2, NestingItem(item), StructuralItem(item), LongestRawItem(item));
    QuietCounts(st2, item.after);
    CountsThen(st, item.before + text, NestingItem(item), StructuralItem(item), LongestRawItem(item),
               item.after, 0, 0, 0);
  }

  lemma {:induction false} ItemsCount(st: Scan, items: seq<Item>)
    requires Ready(st) && WellFormedItems(items)
    ensures Counts(st, FeedAll(st, RenderItems(items)), NestingItems(items), StructuralItems(items),
                   LongestRawItems(items))
    decreases items
  {
    hide FeedAll, Counts, RenderItem, NestingItem, StructuralItem, LongestRawItem, WellFormedItem;
    if items == [] {
      EmptyIsQuiet();
      QuietCounts(st, "");
    } else {
      var most, last := items[..|items| - 1], items[|items| - 1];
      ItemsCount(st, most);
      var comma := if |items| == 1 then "" else ",";
      SeparatorCounts(st, RenderItems(most), NestingItems(most), StructuralItems(most), LongestRawItems(most), comma);
      var head := RenderItems(most) + comma;
      var k := StructuralItems(most) + |comma|;
      CountsReady(st, FeedAll(st, head), NestingItems(most), k, LongestRawItems(most));
      ItemCounts(FeedAll(st, head), last);
      CountsThen(st, head, NestingItems(most), k, LongestRawItems(most),
                 RenderItem(last), NestingItem(last), StructuralItem(last), LongestRawItem(last));
    }
  }

  lemma {:induction false} MemberCounts(st: Scan, m: Member)
    requires Ready(st) && WellFormedMember(m)
    ensures Counts(st, FeedAll(st, RenderMember(m)), NestingMember(m), StructuralMember(m), LongestRawMember(m))
    decreases m
  {
    hide FeedAll, Counts, RenderItem, NestingItem, StructuralItem;
    hide LongestRawItem, WellFormedItem, QuietText, RenderString, BodyOk;
    var a := m.beforeKey;
    QuietCounts(st, a);
    CountsReady(st, FeedAll(st, a), 0, 0, 0);
    var b := RenderString(m.key);
    StringCounts(FeedAll(st, a), m.key);
    var raw := RawLength(m.key);
    CountsThen(st, a, 0, 0, 0, b, 0, 0, raw);
    CountsReady(st, FeedAll(st, a + b), 0, 0, raw);
    QuietCounts(FeedAll(st, a + b), m.afterKey);
    CountsThen(st, a + b, 0, 0, raw, m.afterKey, 0, 0, 0);
    var c := a + b + m.afterKey;
    CountsReady(st, FeedAll(st, c), 0, 0, raw);
    MarkCounts(FeedAll(st, c), ":");
    CountsThen(st, c, 0, 0, raw, ":", 0, 1, 0);
    CountsReady(st, FeedAll(st, c + ":"), 0, 1, raw);
    ItemCounts(FeedAll(st, c + ":"), m.item);
    CountsThen(st, c + ":", 0, 1, raw, RenderItem(m.item), NestingItem(m.item), StructuralItem(m.item),
               LongestRawItem(m.item));
  }

  lemma {:induction false} MembersCount(st: Scan, members: seq<Member>)
    requires Ready(st) && WellFormedMembers(members)
    ensures Counts(st, FeedAll(st, RenderMembers(members)),
                   NestingMembers(members), StructuralMembers(members), LongestRawMembers(members))
    decreases members
  {
    hide FeedAll, Counts, RenderMember, NestingMember, StructuralMember, LongestRawMember, WellFormedMember;
    if members == [] {
      EmptyIsQuiet();
      QuietCounts(st, "");
    } else {
      var most, last := members[..|members| - 1], members[|members| - 1];
      MembersCount(st, most);
      var comma := if |members| == 1 then "" else ",";
      SeparatorCounts(st, RenderMembers(most), NestingMembers(most), StructuralMembers(most), LongestRawMembers(most),
                      comma);
      var head := RenderMembers(most) + comma;
      var k := StructuralMembers(most) + |comma|;
      CountsReady(st, FeedAll(st, head), NestingMembers(most), k, LongestRawMembers(most));
      MemberCounts(FeedAll(st, head), last);
      CountsThen(st, head, NestingMembers(most), k, LongestRawMembers(most),
                 RenderMember(last), NestingMember(last), StructuralMember(last), LongestRawMember(last));
    }
  }

  // ---------- the preflight ----------

  datatype PreflightError = StringTooLong | TooDeep | TooManyNodes

  function Fault(st: Scan): (e: Option<PreflightError>)
  {
    if st.longest > MAX_RAW_STRING then Some(StringTooLong)
    else if st.maximumDepth > MAX_JSON_DEPTH then Some(TooDeep)
    else if st.structural > MAX_JSON_NODES then Some(TooManyNodes)
    else None
  }

  ghost predicate Passes(text: string)
  {
    Fault(FeedAll(FRESH, text)).None?
  }

  /** The counters never go down, so a text whose end is within the limits never left them. */
  lemma {:induction false} PassesPrefix(text: string, k: nat)
    requires k <= |text| && Passes(text)
    ensures Passes(text[..k])
    decreases |text|
  {
    if k == |text| {
      assert text[..k] == text;
    } else {
      assert text[..|text| - 1][..k] == text[..k];
      PassesPrefix(text[..|text| - 1], k);
    }
  }

  ghost predicate FirstFault(text: string, error: PreflightError)
  {
    exists k: nat | k < |text| :: Passes(text[..k]) && Fault(FeedAll(FRESH, text[..k + 1])) == Some(error)
  }

  lemma StartsFresh(text: string)
    ensures FeedAll(FRESH, text[..0]) == FRESH && Passes(text[..0])
  {
  }

  lemma FeedNext(text: string, i: nat)
    requires i < |text|
    ensures FeedAll(FRESH, text[..i + 1]) == Feed(FeedAll(FRESH, text[..i]), text[i])
  {
    assert text[..i + 1][..i] == text[..i];
  }

  lemma NextPasses(text: string, i: nat)
    requires i < |text| && Passes(text[..i])
    ensures Fault(FeedAll(FRESH, text[..i])).None?
    ensures Passes(text[..i + 1]) <==> Fault(FeedAll(FRESH, text[..i + 1])).None?
  {
  }

  lemma Refused(text: string, i: nat, error: PreflightError)
    requires i < |text| && Passes(text[..i])
    requires Fault(FeedAll(FRESH, text[..i + 1])) == Some(error)
    ensures !Passes(text) && FirstFault(text, error)
  {
    hide FeedAll;
    if Passes(text) { PassesPrefix(text, i + 1); }
  }

  /** Succeeds exactly when the whole text stays within the limits; otherwise reports the first to break. */
  method PreflightJsonText(text: string) returns (r: Result<(), PreflightError>)
    ensures r.Ok? <==> Passes(text)
    ensures r.Err? ==> FirstFault(text, r.error)
  {
    hide FeedAll, Passes, FirstFault;
    var depth: nat, maximumDepth: nat, structural: nat := 0, 0, 0;
    var inString, escaped := false, false;
    var rawLength: nat := 0;
    ghost var longest: nat := 0;
    var i := 0;
    StartsFresh(text);
    while i < |text|
      invariant 0 <= i <= |text|
      invariant Scan(depth, maximumDepth, structural, inString, escaped, rawLength, longest) ==
                FeedAll(FRESH, text[..i])
      invariant Passes(text[..i])
    {
      var character := text[i];
      ghost var st := FeedAll(FRESH, text[..i]);
      FeedNext(text, i);
      var fault: Option<PreflightError> := None;
      if inString {
        if escaped {
          escaped, rawLength := false, rawLength + 1;
        } else if character == '\\' {
          escaped, rawLength := true, rawLength + 1;
        } else if character == '"' {
          inString, longest := false, Max(longest, rawLength);
          if rawLength > MAX_RAW_STRING { fault := Some(StringTooLong); }
        } else {
          rawLength := rawLength + 1;
        }
      } else {
        if character == '"' {
          inString, rawLength := true, 0;
        } else if character == '[' || character == '{' {
          depth := depth + 1;
          maximumDepth := Max(maximumDepth, depth);
          structural := structural + 1;
          if maximumDepth > MAX_JSON_DEPTH { fault := Some(TooDeep); }
        } else if character == '}' || character == ']' {
          depth := if depth == 0 then 0 else depth - 1;
        } else if character == ',' || character == ':' {
          structural := structural + 1;
        }
        if fault.None? && structural > MAX_JSON_NODES { fault := Some(TooManyNodes); }
      }
      assert Scan(depth, maximumDepth, structural, inString, escaped, rawLength, longest) == Feed(st, character);
      NextPasses(text, i);
      if fault.Some? {
        Refused(text, i, fault.value);
        return Err(fault.value);
      }
      i := i + 1;
    }
    assert text[..i] == text;
    return Ok(());
  }

  // ---------- what passing says of the value ----------

  function Document(before: string, j: Json, after: string): (text: string)
  {
    before + Render(j) + after
  }

  lemma ItemOf(before: string, j: Json, after: string)
    requires QuietText(before) && WellFormed(j) && QuietText(after)
    ensures WellFormedItem(Item(before, j, after))
    ensures RenderItem(Item(before, j, after)) == Document(before, j, after)
  {
  }

  /** The flat scan decides by exactly the depth, size and longest string of the value written. */
  lemma PreflightIsExact(before: string, j: Json, after: string)
    requires QuietText(before) && WellFormed(j) && QuietText(after)
    ensures Passes(Document(before, j, after)) <==>
            Nesting(j) <= MAX_JSON_DEPTH && Structural(j) <= MAX_JSON_NODES && LongestRaw(j) <= MAX_RAW_STRING
  {
    hide FeedAll, Render, Nesting, Structural, LongestRaw, WellFormed, QuietText, WellFormedItem, RenderItem;
    var item := Item(before, j, after);
    assert WellFormedItem(item) by { ItemOf(before, j, after); }
    assert RenderItem(item) == Document(before, j, after) by { ItemOf(before, j, after); }
    ItemCounts(FRESH, item);
  }
}
