/** The canonical payload: its six members in their fixed order, and what either implementation makes
    of an object it reads. */
module Payload {
  import opened Wrappers
  import opened Bytes
  import opened Json
  import opened Timestamp

  const VERSION := 1

  predicate FitsInt64(n: int) {
    -0x8000_0000_0000_0000 <= n < 0x8000_0000_0000_0000
  }

  predicate FitsInt32(n: int) {
    -0x8000_0000 <= n < 0x8000_0000
  }

  function Members(createdAt: string, id: int, descending: bool, fingerprint: string, issuedAt: int): seq<Member> {
    [("v", Integer(VERSION)), ("c", Text(createdAt)), ("i", Integer(id)), ("d", Boolean(descending)),
     ("f", Text(fingerprint)), ("t", Integer(issuedAt))]
  }

  /** The contract's canonical form: one object, fixed key order, no white space. */
  function Canonical(createdAt: string, id: int, descending: bool, fingerprint: string, issuedAt: int): string {
    "{" + ObjectTail(Members(createdAt, id, descending, fingerprint, issuedAt))
  }

  // ----- reading -----

  datatype Wire = Wire(
    version: int, createdAt: Option<string>, id: int, descending: bool, fingerprint: Option<string>, issuedAt: int)

  /** The values of fields the object does not mention. */
  const BLANK := Wire(0, None, 0, false, None, 0)

  /** Setting one field. A number out of range is an error, and so is a value of another type (Jackson's
      coercions of scalars are not modelled); Go skips unknown keys, Jackson refuses them. */
  function Assign(reader: Dialect, wire: Wire, member: Member): Option<Wire> {
    var (key, value) := member;
    if key == "v" then
      if value.Integer? && FitsInt64(value.n) && (reader == Java ==> FitsInt32(value.n))
      then Some(wire.(version := value.n)) else None
    else if key == "c" then (if value.Text? then Some(wire.(createdAt := Some(value.text))) else None)
    else if key == "i" then (if value.Integer? && FitsInt64(value.n) then Some(wire.(id := value.n)) else None)
    else if key == "d" then (if value.Boolean? then Some(wire.(descending := value.b)) else None)
    else if key == "f" then (if value.Text? then Some(wire.(fingerprint := Some(value.text))) else None)
    else if key == "t" then (if value.Integer? && FitsInt64(value.n) then Some(wire.(issuedAt := value.n)) else None)
    else if reader == Go then Some(wire) else None
  }

  function AssignAll(reader: Dialect, wire: Wire, members: seq<Member>): Option<Wire>
    decreases |members|
  {
    if members == [] then Some(wire) else
      var next :- Assign(reader, wire, members[0]);
      AssignAll(reader, next, members[1..])
  }

  function ReadPayload(reader: Dialect, payload: Octets): Option<Wire> {
    var text :- FromUtf8(payload);
    var members :- ReadObject(text);
    AssignAll(reader, BLANK, members)
  }

  lemma AssignFirst(reader: Dialect, wire: Wire, member: Member, rest: seq<Member>)
    ensures AssignAll(reader, wire, [member] + rest)
         == (var next := Assign(reader, wire, member);
             if next.None? then None else AssignAll(reader, next.value, rest))
  {
    assert ([member] + rest)[1..] == rest;
  }

  lemma MembersAssign(
      reader: Dialect, createdAt: string, id: int, descending: bool, fingerprint: string, issuedAt: int)
    requires FitsInt64(id) && FitsInt64(issuedAt)
    ensures AssignAll(reader, BLANK, Members(createdAt, id, descending, fingerprint, issuedAt))
         == Some(Wire(VERSION, Some(createdAt), id, descending, Some(fingerprint), issuedAt))
  {
    var t := [("t", Integer(issuedAt))];
    var f := [("f", Text(fingerprint))] + t;
    var d := [("d", Boolean(descending))] + f;
    var i := [("i", Integer(id))] + d;
    var c := [("c", Text(createdAt))] + i;
    assert Members(createdAt, id, descending, fingerprint, issuedAt) == [("v", Integer(VERSION))] + c;
    var w0 := BLANK.(version := VERSION);
    var w1 := w0.(createdAt := Some(createdAt));
    var w2 := w1.(id := id);
    var w3 := w2.(descending := descending);
    var w4 := w3.(fingerprint := Some(fingerprint));
    var w5 := w4.(issuedAt := issuedAt);
    assert t == [("t", Integer(issuedAt))] + [];
    AssignFirst(reader, BLANK, ("v", Integer(VERSION)), c);
    AssignFirst(reader, w0, ("c", Text(createdAt)), i);
    AssignFirst(reader, w1, ("i", Integer(id)), d);
    AssignFirst(reader, w2, ("d", Boolean(descending)), f);
    AssignFirst(reader, w3, ("f", Text(fingerprint)), t);
    AssignFirst(reader, w4, ("t", Integer(issuedAt)), []);
  }

  /** Either reader gets all six fields of a canonical payload back. */
  lemma CanonicalReadsBack(
      reader: Dialect, createdAt: string, id: int, descending: bool, fingerprint: string, issuedAt: int)
    requires FitsInt64(id) && FitsInt64(issuedAt)
    ensures ReadPayload(reader, Utf8(Canonical(createdAt, id, descending, fingerprint, issuedAt)))
         == Some(Wire(VERSION, Some(createdAt), id, descending, Some(fingerprint), issuedAt))
  {
    var members := Members(createdAt, id, descending, fingerprint, issuedAt);
    Utf8RoundTrip(Canonical(createdAt, id, descending, fingerprint, issuedAt));
    ObjectReadsBack(members);
    assert ("{" + ObjectTail(members))[1..] == ObjectTail(members);
    MembersAssign(reader, createdAt, id, descending, fingerprint, issuedAt);
  }

  // ----- the pieces a writer puts end to end -----

  /** An object as a writer builds it: before each value, an opening or comma, the quoted key and a
      colon. */
  function Pieces(opening: char, members: seq<Member>): string
    requires members != []
    decreases |members|
  {
    KeyPiece(opening, members[0].0)
    + (ValueText(members[0].1) + (if |members| == 1 then "}" else Pieces(',', members[1..])))
  }

  function KeyPiece(opening: char, key: string): string {
    [opening] + (Quoted(key) + ":")
  }

  lemma MemberPieces(member: Member, opening: char, rest: string)
    ensures [opening] + (MemberText(member) + rest) == KeyPiece(opening, member.0) + (ValueText(member.1) + rest)
  {
  }

  lemma {:induction false} ObjectPieces(opening: char, members: seq<Member>)
    requires members != []
    ensures [opening] + ObjectTail(members) == Pieces(opening, members)
    decreases |members|
  {
    if |members| == 1 {
      MemberPieces(members[0], opening, "}");
    } else {
      MemberPieces(members[0], opening, "," + ObjectTail(members[1..]));
      ObjectPieces(',', members[1..]);
    }
  }

  lemma FirstPiece(opening: char, key: char, piece: string, value: Value, rest: seq<Member>)
    requires !NeedsEscape(key) && piece == [opening, '"', key, '"', ':']
    ensures Pieces(opening, [([key], value)] + rest)
         == piece + (ValueText(value) + (if rest == [] then "}" else Pieces(',', rest)))
  {
    EscapeIsIdentity([key]);
    assert KeyPiece(opening, [key]) == piece;
    assert ([([key], value)] + rest)[1..] == rest;
  }

  /** The pieces of the last three members. */
  function LastPieces(descending: bool, fingerprint: string, issuedAt: int): string {
    ",\"d\":" + (ValueText(Boolean(descending))
    + (",\"f\":" + (Quoted(fingerprint)
    + (",\"t\":" + (ValueText(Integer(issuedAt)) + "}")))))
  }

  lemma LastMembersPieces(descending: bool, fingerprint: string, issuedAt: int)
    ensures Pieces(',', [("d", Boolean(descending)), ("f", Text(fingerprint)), ("t", Integer(issuedAt))])
         == LastPieces(descending, fingerprint, issuedAt)
  {
    var t := [("t", Integer(issuedAt))];
    var f := [("f", Text(fingerprint))] + t;
    FirstPiece(',', 'd', ",\"d\":", Boolean(descending), f);
    FirstPiece(',', 'f', ",\"f\":", Text(fingerprint), t);
    FirstPiece(',', 't', ",\"t\":", Integer(issuedAt), []);
    assert t == [("t", Integer(issuedAt))] + [];
    assert [("d", Boolean(descending)), ("f", Text(fingerprint)), ("t", Integer(issuedAt))]
        == [("d", Boolean(descending))] + f;
  }

  /** The canonical payload, spelled out piece by piece. */
  lemma CanonicalPieces(createdAt: string, id: int, descending: bool, fingerprint: string, issuedAt: int)
    ensures Canonical(createdAt, id, descending, fingerprint, issuedAt)
         == "{\"v\":" + (ValueText(Integer(VERSION))
          + (",\"c\":" + (Quoted(createdAt)
          + (",\"i\":" + (ValueText(Integer(id)) + LastPieces(descending, fingerprint, issuedAt))))))
  {
    var d := [("d", Boolean(descending)), ("f", Text(fingerprint)), ("t", Integer(issuedAt))];
    var i := [("i", Integer(id))] + d;
    var c := [("c", Text(createdAt))] + i;
    assert Members(createdAt, id, descending, fingerprint, issuedAt) == [("v", Integer(VERSION))] + c;
    ObjectPieces('{', [("v", Integer(VERSION))] + c);
    FirstPiece('{', 'v', "{\"v\":", Integer(VERSION), c);
    FirstPiece(',', 'c', ",\"c\":", Text(createdAt), i);
    FirstPiece(',', 'i', ",\"i\":", Integer(id), d);
    LastMembersPieces(descending, fingerprint, issuedAt);
  }
}
