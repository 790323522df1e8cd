/**
 The bounds applied to a decoded JSON value, node by node with one shared counter, and what
 they can still refuse once the text has passed the preflight.
 */
module JsonBounds {
  import opened Prelude
  import opened JsonPreflight
  import opened Numerals
  import opened Utf8
  import Utf16

  // ---------- the characters a string body decodes to ----------

  function HexValue(c: char): (n: nat)
    ensures n < 16 && (IsHex(c) ==> n == DigitValue(c))
  {
    if IsHex(c) then DigitValue(c) else 0
  }

  function UnitOf(digits: string): (u: Utf16.Unit)
    requires |digits| == 4
  {
    HexValue(digits[0]) * 4096 + HexValue(digits[1]) * 256 + HexValue(digits[2]) * 16 + HexValue(digits[3])
  }

  function Digits(u: Utf16.Unit): (digits: string)
  {
    var n: nat := u;
    [Digit(n / 16 / 16 / 16), Digit(n / 16 / 16 % 16), Digit(n / 16 % 16), Digit(n % 16)]
  }

  lemma DigitsRead(u: Utf16.Unit)
    ensures |Digits(u)| == 4 && UnitOf(Digits(u)) == u && PieceOk(Unicode(Digits(u)))
  {
    hide Digit, HexValue;
    var n: nat := u;
    var a, b, c := n / 16, n / 16 / 16, n / 16 / 16 / 16;
    assert n == 16 * a + n % 16 && a == 16 * b + a % 16 && b == 16 * c + b % 16 && c < 16;
    assert Digits(u) == [Digit(c), Digit(b % 16), Digit(a % 16), Digit(n % 16)];
  }

  predicate IsEscape(p: Piece)
  {
    p.Unicode? && |p.digits| == 4
  }

  function CodeOf(p: Piece): (code: int)
  {
    match p
    case Plain(c) => c as int
    case Simple(c) =>
      (match c case 'b' => 8 case 'f' => 12 case 'n' => 10 case 'r' => 13 case 't' => 9 case _ => c as int)
    case Unicode(digits) => if |digits| == 4 then UnitOf(digits) else 0
  }

  predicate Paired(body: seq<Piece>)
  {
    && |body| > 1 && IsEscape(body[0]) && IsEscape(body[1])
    && Utf16.IsHigh(UnitOf(body[0].digits)) && Utf16.IsLow(UnitOf(body[1].digits))
  }

  /** Code points, as Python counts them: an escaped surrogate pair is one, a lone surrogate stays. */
  function Decoded(body: seq<Piece>): (codes: seq<int>)
  {
    if body == [] then []
    else if Paired(body) then
      [Utf16.Combine(UnitOf(body[0].digits), UnitOf(body[1].digits))] + Decoded(body[2..])
    else [CodeOf(body[0])] + Decoded(body[1..])
  }

  function Supplementary(codes: seq<int>): (n: nat)
  {
    if codes == [] then 0 else (if codes[0] >= 0x1_0000 then 1 else 0) + Supplementary(codes[1..])
  }

  lemma {:induction false} RawConcat(a: seq<Piece>, b: seq<Piece>)
    ensures RawLength(a + b) == RawLength(a) + RawLength(b)
    decreases |b|
  {
    if b == [] {
      assert a + b == a;
    } else {
      assert (a + b)[..|a + b| - 1] == a + b[..|b| - 1];
      RawConcat(a, b[..|b| - 1]);
    }
  }

  lemma RawHead(body: seq<Piece>, k: nat)
    requires k <= |body| && k <= 2
    ensures RawLength(body) <= 6 * k + RawLength(body[k..])
    ensures k == 2 && body[0].Unicode? && body[1].Unicode? ==> RawLength(body) == 12 + RawLength(body[2..])
    ensures k == 1 && body[0].Unicode? ==> RawLength(body) == 6 + RawLength(body[1..])
  {
    assert body == body[..k] + body[k..];
    RawConcat(body[..k], body[k..]);
    if k > 0 {
      assert body[..k][..k - 1] == body[..k - 1];
      if k > 1 { assert body[..1][..0] == []; }
    }
  }

  lemma StepDecoded(body: seq<Piece>)
    requires body != []
    ensures Paired(body) ==>
              && |body| > 1 && Decoded(body) == [Decoded(body)[0]] + Decoded(body[2..]) && Decoded(body)[0] >= 0x1_0000
    ensures !Paired(body) ==> Decoded(body) == [CodeOf(body[0])] + Decoded(body[1..])
  {
  }

  lemma NothingEscaped()
    ensures BodyOk([]) && Decoded([]) == [] && RawLength([]) == 0
  {
  }

  /** No spelling of a string is longer than six characters for each code unit of its text. */
  lemma {:induction false} RawAtMost(body: seq<Piece>)
    ensures RawLength(body) <= 6 * (|Decoded(body)| + Supplementary(Decoded(body)))
    decreases |body|
  {
    hide RawLength, CodeOf, UnitOf, Paired;
    if body == [] {
      NothingEscaped();
    } else {
      var k := if Paired(body) then 2 else 1;
      StepDecoded(body);
      RawHead(body, k);
      RawAtMost(body[k..]);
      assert Decoded(body)[1..] == Decoded(body[k..]);
    }
  }

  function Escape(us: seq<Utf16.Unit>): (body: seq<Piece>)
  {
    seq(|us|, i requires 0 <= i < |us| => Unicode(Digits(us[i])))
  }

  /** The longest spelling: every code unit escaped. */
  function Escaped(codes: seq<Scalar>): (body: seq<Piece>)
  {
    if codes == [] then [] else Escape(Utf16.EncodeUnit(codes[0])) + Escaped(codes[1..])
  }

  lemma UnitFirst(u: Utf16.Unit, rest: seq<Piece>)
    requires !Utf16.IsHigh(u)
    ensures var body := Escape([u]) + rest;
            && (BodyOk(rest) ==> BodyOk(body))
            && Decoded(body) == [u] + Decoded(rest)
            && RawLength(body) == 6 + RawLength(rest)
  {
    hide RawLength, Digits, UnitOf, PieceOk, Decoded;
    var body := Escape([u]) + rest;
    DigitsRead(u);
    assert body[1..] == rest;
    RawHead(body, 1);
    StepDecoded(body);
  }

  lemma PairFirst(high: Utf16.Unit, low: Utf16.Unit, rest: seq<Piece>)
    requires Utf16.IsHigh(high) && Utf16.IsLow(low)
    ensures var body := Escape([high, low]) + rest;
            && (BodyOk(rest) ==> BodyOk(body))
            && Decoded(body) == [Utf16.Combine(high, low)] + Decoded(rest)
            && RawLength(body) == 12 + RawLength(rest)
  {
    hide RawLength, Digits, UnitOf, PieceOk, CodeOf;
    var body := Escape([high, low]) + rest;
    DigitsRead(high);
    DigitsRead(low);
    assert body[2..] == rest;
    RawHead(body, 2);
    assert Paired(body);
  }

  lemma {:induction false} EscapedSpells(codes: seq<Scalar>)
    ensures BodyOk(Escaped(codes)) && Decoded(Escaped(codes)) == codes
    ensures RawLength(Escaped(codes)) == 6 * (|codes| + Supplementary(codes))
    decreases |codes|
  {
    hide RawLength, Escape, BodyOk, Decoded;
    if codes == [] {
      NothingEscaped();
    } else {
      var rest := Escaped(codes[1..]);
      EscapedSpells(codes[1..]);
      assert codes == [codes[0]] + codes[1..];
      if codes[0] < 0x1_0000 {
        UnitFirst(codes[0], rest);
      } else {
        var us := Utf16.EncodeUnit(codes[0]);
        PairFirst(us[0], us[1], rest);
        assert us == [us[0], us[1]] && Utf16.Combine(us[0], us[1]) == codes[0];
      }
    }
  }

  /**
   The raw bound allows six written characters for each character of the text. Every spelling
   of a text gets through exactly when its code units fit; a text with characters outside the
   basic plane can be within the character bound and still have a spelling that is stopped.
   */
  lemma SpellingsPass(codes: seq<Scalar>)
    ensures (forall body | BodyOk(body) && Decoded(body) == codes :: RawLength(body) <= MAX_RAW_STRING)
            <==> 6 * (|codes| + Supplementary(codes)) <= MAX_RAW_STRING
  {
    hide RawLength, Decoded, BodyOk, Escaped, Supplementary;
    EscapedSpells(codes);
    forall body | BodyOk(body) && Decoded(body) == codes
      ensures RawLength(body) <= 6 * (|codes| + Supplementary(codes))
    {
      RawAtMost(body);
    }
  }

  lemma {:induction false} AllSupplementary(n: nat, code: Scalar)
    requires code >= 0x1_0000
    ensures Supplementary(seq(n, i => code)) == n
  {
    if n > 0 {
      assert seq(n, i => code)[1..] == seq(n - 1, i => code);
      AllSupplementary(n - 1, code);
    }
  }

  predicate IsSurrogate(code: int) { 0xD800 <= code < 0xE000 }

  /** Five thousand escaped pairs: a text within the character bound that the preflight stops. */
  lemma ShortTextStopped()
    ensures exists body ::
              && BodyOk(body) && |Decoded(body)| <= MAX_JSON_STRING_CHARS
              && (forall i | 0 <= i < |Decoded(body)| :: !IsSurrogate(Decoded(body)[i]))
              && RawLength(body) > MAX_RAW_STRING
  {
    hide Decoded, Escaped, RawLength;
    var codes: seq<Scalar> := seq(5_000, i => 0x1_F600);
    AllSupplementary(5_000, 0x1_F600);
    EscapedSpells(codes);
  }

  predicate TextOk(body: seq<Piece>)
  {
    |Decoded(body)| <= MAX_JSON_STRING_CHARS && forall i | 0 <= i < |Decoded(body)| :: !IsSurrogate(Decoded(body)[i])
  }

  // ---------- the tree: nodes, reach, and the bounds on single values ----------

  function Nodes(j: Json): (n: nat)
    decreases j
  {
    match j
    case Literal(_) => 1
    case Str(_) => 1
    case Arr(items, _) => 1 + NodesItems(items)
    case Obj(members, _) => 1 + NodesMembers(members)
  }

  function NodesItem(item: Item): (n: nat) decreases item { Nodes(item.value) }

  function NodesItems(items: seq<Item>): (n: nat)
    decreases items
  {
    if items == [] then 0 else NodesItems(items[..|items| - 1]) + NodesItem(items[|items| - 1])
  }

  function NodesMember(m: Member): (n: nat) decreases m { NodesItem(m.item) }

  function NodesMembers(members: seq<Member>): (n: nat)
    decreases members
  {
    if members == [] then 0 else NodesMembers(members[..|members| - 1]) + NodesMember(members[|members| - 1])
  }

  /** How far below a value its deepest node lies. */
  function Reach(j: Json): (n: nat)
    decreases j
  {
    match j
    case Literal(_) => 0
    case Str(_) => 0
    case Arr(items, _) => ReachItems(items)
    case Obj(members, _) => ReachMembers(members)
  }

  function ReachItem(item: Item): (n: nat) decreases item { 1 + Reach(item.value) }

  function ReachItems(items: seq<Item>): (n: nat)
    decreases items
  {
    if items == [] then 0 else Max(ReachItems(items[..|items| - 1]), ReachItem(items[|items| - 1]))
  }

  function ReachMember(m: Member): (n: nat) decreases m { ReachItem(m.item) }

  function ReachMembers(members: seq<Member>): (n: nat)
    decreases members
  {
    if members == [] then 0 else Max(ReachMembers(members[..|members| - 1]), ReachMember(members[|members| - 1]))
  }

  /** Every string, key, list and object of a value is within its own bound. */
  predicate Admissible(j: Json)
    decreases j
  {
    match j
    case Literal(_) => true
    case Str(body) => TextOk(body)
    case Arr(items, _) => |items| <= MAX_JSON_LIST_ITEMS && AdmissibleItems(items)
    case Obj(members, _) => |members| <= MAX_JSON_OBJECT_KEYS && AdmissibleMembers(members)
  }

  predicate AdmissibleItem(item: Item) decreases item { Admissible(item.value) }

  predicate AdmissibleItems(items: seq<Item>)
    decreases items
  {
    items == [] || (AdmissibleItems(items[..|items| - 1]) && AdmissibleItem(items[|items| - 1]))
  }

  predicate AdmissibleMember(m: Member) decreases m { TextOk(m.key) && AdmissibleItem(m.item) }

  predicate AdmissibleMembers(members: seq<Member>)
    decreases members
  {
    members == [] || (AdmissibleMembers(members[..|members| - 1]) && AdmissibleMember(members[|members| - 1]))
  }

  // ---------- the check with its shared counter ----------

  datatype BoundError =
    | NodeLimit
    | DepthLimit
    | SurrogateFound
    | StringLimit
    | KeyLimit
    | ItemLimit

  class NodeCounter {
    var count: nat

    constructor ()
      ensures count == 0
    {
      count := 0;
    }
  }

  ghost predicate Fits(nodes: nat, reach: nat, admissible: bool, depth: nat, count: nat)
  {
    count + nodes <= MAX_JSON_NODES && depth + reach <= MAX_JSON_DEPTH && admissible
  }

  /** A refusal for size or depth is never a false alarm. */
  ghost predicate Grounded(error: BoundError, nodes: nat, reach: nat, depth: nat, count: nat)
  {
    && (error.NodeLimit? ==> count + nodes > MAX_JSON_NODES)
    && (error.DepthLimit? ==> depth + reach > MAX_JSON_DEPTH)
  }

  ghost predicate Settled(r: Result<(), BoundError>, nodes: nat, reach: nat, admissible: bool, depth: nat, count: nat)
  {
    && (r.Ok? <==> Fits(nodes, reach, admissible, depth, count))
    && (r.Err? ==> Grounded(r.error, nodes, reach, depth, count))
  }

  method BoundText(body: seq<Piece>) returns (r: Result<(), BoundError>)
    ensures r.Ok? <==> TextOk(body)
    ensures r.Err? ==> r.error == SurrogateFound || r.error == StringLimit
  {
    var codes := Decoded(body);
    if exists i | 0 <= i < |codes| :: IsSurrogate(codes[i]) {
      return Err(SurrogateFound);
    }
    if |codes| > MAX_JSON_STRING_CHARS {
      return Err(StringLimit);
    }
    return Ok(());
  }

  /** Accepts exactly the values whose nodes, depth, strings and widths all fit what is left. */
  method BoundJson(value: Json, depth: nat, nodes: NodeCounter) returns (r: Result<(), BoundError>)
    modifies nodes
    ensures Settled(r, Nodes(value), Reach(value), Admissible(value), depth, old(nodes.count))
    ensures r.Ok? ==> nodes.count == old(nodes.count) + Nodes(value)
    decreases value
  {
    hide NodesItems, ReachItems, AdmissibleItems, NodesMembers, ReachMembers, AdmissibleMembers, TextOk;
    nodes.count := nodes.count + 1;
    if nodes.count > MAX_JSON_NODES {
      return Err(NodeLimit);
    }
    if depth > MAX_JSON_DEPTH {
      return Err(DepthLimit);
    }
    match value
    case Literal(_) =>
      r := Ok(());
    case Str(body) =>
      r := BoundText(body);
    case Obj(members, _) =>
      if |members| > MAX_JSON_OBJECT_KEYS {
        return Err(KeyLimit);
      }
      r := BoundMembers(members, depth, nodes);
    case Arr(items, _) =>
      if |items| > MAX_JSON_LIST_ITEMS {
        return Err(ItemLimit);
      }
      r := BoundItems(items, depth, nodes);
  }

  lemma NoItems(items: seq<Item>)
    ensures NodesItems(items[..0]) == 0 && ReachItems(items[..0]) == 0 && AdmissibleItems(items[..0])
  {
  }

  lemma NextItem(items: seq<Item>, i: nat)
    requires i < |items|
    ensures NodesItems(items[..i + 1]) == NodesItems(items[..i]) + Nodes(items[i].value)
    ensures ReachItems(items[..i + 1]) == Max(ReachItems(items[..i]), 1 + Reach(items[i].value))
    ensures AdmissibleItems(items[..i + 1]) <==> AdmissibleItems(items[..i]) && Admissible(items[i].value)
  {
    hide Nodes, Reach, Admissible;
    assert items[..i + 1][..i] == items[..i];
  }

  /** A prefix holds no more than the whole. */
  lemma {:induction false} PrefixItems(items: seq<Item>, k: nat)
    requires k <= |items|
    ensures NodesItems(items[..k]) <= NodesItems(items) && ReachItems(items[..k]) <= ReachItems(items)
    ensures AdmissibleItems(items) ==> AdmissibleItems(items[..k])
    decreases |items|
  {
    hide NodesItem, ReachItem, AdmissibleItem;
    if k == |items| {
      assert items[..k] == items;
    } else {
      assert items[..|items| - 1][..k] == items[..k];
      PrefixItems(items[..|items| - 1], k);
    }
  }

  method BoundItems(items: seq<Item>, depth: nat, nodes: NodeCounter) returns (r: Result<(), BoundError>)
    requires nodes.count <= MAX_JSON_NODES && depth <= MAX_JSON_DEPTH
    modifies nodes
    ensures Settled(r, NodesItems(items), ReachItems(items), AdmissibleItems(items), depth, old(nodes.count))
    ensures r.Ok? ==> nodes.count == old(nodes.count) + NodesItems(items)
    decreases items
  {
    hide NodesItems, ReachItems, AdmissibleItems, Nodes, Reach, Admissible;
    NoItems(items);
    var i := 0;
    while i < |items|
      invariant 0 <= i <= |items|
      invariant Fits(NodesItems(items[..i]), ReachItems(items[..i]), AdmissibleItems(items[..i]), depth,
                     old(nodes.count))
      invariant nodes.count == old(nodes.count) + NodesItems(items[..i])
    {
      NextItem(items, i);
      PrefixItems(items, i + 1);
      var one := BoundJson(items[i].value, depth + 1, nodes);
      if one.Err? {
        return one;
      }
      i := i + 1;
    }
    assert items[..i] == items;
    return Ok(());
  }

  lemma NoMembers(members: seq<Member>)
    ensures NodesMembers(members[..0]) == 0 && ReachMembers(members[..0]) == 0 && AdmissibleMembers(members[..0])
  {
  }

  lemma NextMember(members: seq<Member>, i: nat)
    requires i < |members|
    ensures NodesMembers(members[..i + 1]) == NodesMembers(members[..i]) + Nodes(members[i].item.value)
    ensures ReachMembers(members[..i + 1]) == Max(ReachMembers(members[..i]), 1 + Reach(members[i].item.value))
    ensures AdmissibleMembers(members[..i + 1]) <==>
            AdmissibleMembers(members[..i]) && TextOk(members[i].key) && Admissible(members[i].item.value)
  {
    hide Nodes, Reach, Admissible, TextOk;
    var m := members[i];
    assert members[..i + 1][..i] == members[..i] && members[..i + 1][i] == m;
    assert NodesMember(m) == NodesItem(m.item) == Nodes(m.item.value);
    assert ReachMember(m) == ReachItem(m.item) == 1 + Reach(m.item.value);
    assert AdmissibleMember(m) <==> TextOk(m.key) && AdmissibleItem(m.item);
  }

  lemma {:induction false} PrefixMembers(members: seq<Member>, k: nat)
    requires k <= |members|
    ensures NodesMembers(members[..k]) <= NodesMembers(members) && ReachMembers(members[..k]) <= ReachMembers(members)
    ensures AdmissibleMembers(members) ==> AdmissibleMembers(members[..k])
    decreases |members|
  {
    hide NodesMember, ReachMember, AdmissibleMember;
    if k == |members| {
      assert members[..k] == members;
    } else {
      assert members[..|members| - 1][..k] == members[..k];
      PrefixMembers(members[..|members| - 1], k);
    }
  }

  method BoundMembers(members: seq<Member>, depth: nat, nodes: NodeCounter) returns (r: Result<(), BoundError>)
    requires nodes.count <= MAX_JSON_NODES && depth <= MAX_JSON_DEPTH
    modifies nodes
    ensures Settled(r, NodesMembers(members), ReachMembers(members), AdmissibleMembers(members), depth,
                    old(nodes.count))
    ensures r.Ok? ==> nodes.count == old(nodes.count) + NodesMembers(members)
    decreases members
  {
    hide NodesMembers, ReachMembers, AdmissibleMembers, Nodes, Reach, Admissible, TextOk;
    NoMembers(members);
    var i := 0;
    while i < |members|
      invariant 0 <= i <= |members|
      invariant Fits(NodesMembers(members[..i]), ReachMembers(members[..i]), AdmissibleMembers(members[..i]), depth,
                     old(nodes.count))
      invariant nodes.count == old(nodes.count) + NodesMembers(members[..i])
    {
      NextMember(members, i);
      PrefixMembers(members, i + 1);
      var key := BoundText(members[i].key);
      if key.Err? {
        return key;
      }
      var one := BoundJson(members[i].item.value, depth + 1, nodes);
      if one.Err? {
        return one;
      }
      i := i + 1;
    }
    assert members[..i] == members;
    return Ok(());
  }

  // ---------- after the preflight ----------

  /** What the flat count charges beyond the nodes: one for an empty container, one for each key. */
  function Slack(j: Json): (n: nat)
    decreases j
  {
    match j
    case Literal(_) => 0
    case Str(_) => 0
    case Arr(items, _) => if items == [] then 1 else SlackItems(items)
    case Obj(members, _) => if members == [] then 1 else SlackMembers(members)
  }

  function SlackItem(item: Item): (n: nat) decreases item { Slack(item.value) }

  function SlackItems(items: seq<Item>): (n: nat)
    decreases items
  {
    if items == [] then 0 else SlackItems(items[..|items| - 1]) + SlackItem(items[|items| - 1])
  }

  function SlackMember(m: Member): (n: nat) decreases m { 1 + SlackItem(m.item) }

  function SlackMembers(members: seq<Member>): (n: nat)
    decreases members
  {
    if members == [] then 0 else SlackMembers(members[..|members| - 1]) + SlackMember(members[|members| - 1])
  }

  /** The flat count is the number of nodes, less one, plus the slack; and nesting covers the reach. */
  lemma {:induction false} CountsAgree(j: Json)
    ensures Nodes(j) + Slack(j) == Structural(j) + 1 && Reach(j) <= Nesting(j)
    decreases j
  {
    match j
    case Literal(_) =>
    case Str(_) =>
    case Arr(items, _) => if items != [] { ItemsAgree(items); }
    case Obj(members, _) => if members != [] { MembersAgree(members); }
  }

  lemma {:induction false} ItemAgrees(item: Item)
    ensures NodesItem(item) + SlackItem(item) == StructuralItem(item) + 1 && ReachItem(item) <= 1 + NestingItem(item)
    decreases item
  {
    hide Nodes, Slack, Structural, Reach, Nesting;
    CountsAgree(item.value);
  }

  lemma {:induction false} ItemsAgree(items: seq<Item>)
    requires items != []
    ensures NodesItems(items) + SlackItems(items) == StructuralItems(items) + 1
    ensures ReachItems(items) <= 1 + NestingItems(items)
    decreases items
  {
    hide NodesItem, SlackItem, StructuralItem, ReachItem, NestingItem;
    ItemAgrees(items[|items| - 1]);
    if |items| > 1 { ItemsAgree(items[..|items| - 1]); }
  }

  lemma {:induction false} MemberAgrees(m: Member)
    ensures NodesMember(m) + SlackMember(m) == StructuralMember(m) + 1 && ReachMember(m) <= 1 + NestingMember(m)
    decreases m
  {
    hide NodesItem, SlackItem, StructuralItem, ReachItem, NestingItem;
    ItemAgrees(m.item);
  }

  lemma {:induction false} MembersAgree(members: seq<Member>)
    requires members != []
    ensures NodesMembers(members) + SlackMembers(members) == StructuralMembers(members) + 1
    ensures ReachMembers(members) <= 1 + NestingMembers(members)
    decreases members
  {
    hide NodesMember, SlackMember, StructuralMember, ReachMember, NestingMember;
    MemberAgrees(members[|members| - 1]);
    if |members| > 1 { MembersAgree(members[..|members| - 1]); }
  }

  /**
   Once a text has passed the preflight, the depth check cannot fail on its value, and the
   node check fails in one case only: a count of exactly the limit in nested, non-empty lists.
   */
  lemma AfterPreflight(before: string, j: Json, after: string)
    requires QuietText(before) && WellFormed(j) && QuietText(after) && Passes(Document(before, j, after))
    ensures Reach(j) <= MAX_JSON_DEPTH
    ensures Nodes(j) > MAX_JSON_NODES <==> Structural(j) == MAX_JSON_NODES && Slack(j) == 0
  {
    hide Reach, Nodes, Slack, Structural, Nesting, LongestRaw, Passes, Document;
    PreflightIsExact(before, j, after);
    CountsAgree(j);
  }

  function Row(n: nat): (items: seq<Item>)
    ensures |items| == n
  {
    seq(n, i => Item("", Literal("0"), ""))
  }

  lemma {:induction false} RowCounts(n: nat)
    requires n > 0
    ensures WellFormedItems(Row(n)) && StructuralItems(Row(n)) == n - 1 && SlackItems(Row(n)) == 0
    ensures NestingItems(Row(n)) == 0 && LongestRawItems(Row(n)) == 0
  {
    var zero := Item("", Literal("0"), "");
    assert Row(n)[..n - 1] == Row(n - 1) && Row(n)[n - 1] == zero;
    assert WellFormedItem(zero) && StructuralItem(zero) == SlackItem(zero) == 0;
    assert NestingItem(zero) == LongestRawItem(zero) == 0;
    if n > 1 { RowCounts(n - 1); }
  }

  lemma SlackOne(item: Item)
    ensures SlackItems([item]) == SlackItem(item)
  {
    assert [item][..0] == [] && [item][0] == item;
    assert SlackItems([item]) == SlackItems([item][..0]) + SlackItem([item][0]);
  }

  lemma PairCounts(row: Item)
    requires WellFormedItem(row)
    ensures var items := [row, row];
            && WellFormedItems(items)
            && StructuralItems(items) == 1 + 2 * StructuralItem(row)
            && SlackItems(items) == 2 * SlackItem(row)
            && NestingItems(items) == NestingItem(row)
            && LongestRawItems(items) == LongestRawItem(row)
  {
    hide StructuralItem, SlackItem, NestingItem, LongestRawItem, WellFormedItem;
    var items := [row, row];
    assert items[..1] == [row] && [row][..0] == [];
    SlackOne(row);
    assert StructuralItems([row]) == StructuralItem(row);
    assert NestingItems([row]) == NestingItem(row) && LongestRawItems([row]) == LongestRawItem(row);
    assert WellFormedItems([row]);
  }

  /** Two lists of 99,999 numbers: accepted by the flat count, one node too many for the tree. */
  lemma NodeLimitReachable()
    ensures var row := Item("", Arr(Row(99_999), ""), "");
            var j := Arr([row, row], "");
            WellFormed(j) && Passes(Document("", j, "")) && Nodes(j) > MAX_JSON_NODES
  {
    hide Row, Passes, Document;
    RowCounts(99_999);
    var row := Item("", Arr(Row(99_999), ""), "");
    var j := Arr([row, row], "");
    PairCounts(row);
    PreflightIsExact("", j, "");
    CountsAgree(j);
  }
}
