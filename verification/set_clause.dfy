/**
 * The SET clause that the profile update builds by string manipulation
 * (`src/db/user.rs`, `update`): each column/value pair is rendered as
 * `k = nullif('v', ''), `, the pieces are joined with a single space, and
 * then `len() - 2` characters are kept, where `len()` counts UTF-8 bytes
 * while `chars().take(..)` counts characters.
 */
module SetClause {
  import opened Utf8

  type Entry = (string, string)

  /**
   * `format!`: the literal pieces of the template with the arguments written
   * between them, each `{}` taking the next argument verbatim.
   */
  function Format(pieces: seq<string>, args: seq<string>): string
    requires |pieces| == |args| + 1
  {
    if args == [] then pieces[0] else pieces[0] + args[0] + Format(pieces[1..], args[1..])
  }

  /** The template `"{} = nullif('{}', ''), "` split at its placeholders. */
  const FragmentPieces: seq<string> := ["", " = nullif('", "', ''), "]

  /** The text rendered for one column/value pair. */
  function Fragment(e: Entry): string
  {
    Format(FragmentPieces, [e.0, e.1])
  }

  /** The assignment a pair stands for: `k = nullif('v', '')`. */
  function Assignment(e: Entry): string
  {
    e.0 + " = nullif('" + e.1 + "', '')"
  }

  /** The value is inserted verbatim between quotes (no escaping), followed by the separator ", ". */
  lemma FragmentShape(e: Entry)
    ensures Fragment(e) == Assignment(e) + ", "
    ensures Fragment(e) == e.0 + " = nullif('" + e.1 + "', ''), "
  {
    var p := FragmentPieces;
    assert Format(p[1..][1..], []) == "', ''), ";
    assert Format(p[1..], [e.1]) == " = nullif('" + e.1 + "', ''), ";
    assert Format(p, [e.0, e.1]) == "" + e.0 + Format(p[1..], [e.1]);
  }

  function Fragments(entries: seq<Entry>): (parts: seq<string>)
    ensures |parts| == |entries|
  {
    if entries == [] then [] else [Fragment(entries[0])] + Fragments(entries[1..])
  }

  function AssignmentList(entries: seq<Entry>): (parts: seq<string>)
    ensures |parts| == |entries|
  {
    if entries == [] then [] else [Assignment(entries[0])] + AssignmentList(entries[1..])
  }

  /** `[String]::join(sep)` */
  function Join(parts: seq<string>, sep: string): string
  {
    if parts == [] then ""
    else if |parts| == 1 then parts[0]
    else parts[0] + sep + Join(parts[1..], sep)
  }

  /** `chars().take(n).collect()`: the first `n` characters, or all of them. */
  function Take(s: string, n: nat): (r: string)
    ensures r == s[..if n < |s| then n else |s|]
  {
    if n == 0 || s == [] then [] else [s[0]] + Take(s[1..], n - 1)
  }

  /** The rendered fragments joined by a single space. */
  function Joined(entries: seq<Entry>): string
  {
    Join(Fragments(entries), " ")
  }

  /**
   * The clause as the source computes it. `len() - 2` is an unsigned
   * subtraction, so the source needs the joined text to be at least two bytes long.
   */
  function SetClause(entries: seq<Entry>): string
    requires ByteLen(Joined(entries)) >= 2
  {
    var joined := Joined(entries);
    Take(joined, ByteLen(joined) - 2)
  }

  /** The clause the update means to send: the assignments separated by ",  " (comma and two spaces). */
  function Assignments(entries: seq<Entry>): string
  {
    Join(AssignmentList(entries), ",  ")
  }

  /** The joined fragments are the intended assignments followed by one trailing ", ". */
  lemma {:induction false} JoinedShape(entries: seq<Entry>)
    requires |entries| >= 1
    ensures Joined(entries) == Assignments(entries) + ", "
  {
    FragmentShape(entries[0]);
    var fs := Fragments(entries);
    var assigns := AssignmentList(entries);
    assert fs[0] == Fragment(entries[0]) && fs[1..] == Fragments(entries[1..]);
    assert assigns[0] == Assignment(entries[0]) && assigns[1..] == AssignmentList(entries[1..]);
    if |entries| > 1 {
      JoinedShape(entries[1..]);
      var a0 := Assignment(entries[0]);
      var rest := Assignments(entries[1..]);
      calc {
        Joined(entries);
        fs[0] + " " + Join(fs[1..], " ");
        (a0 + ", ") + " " + (rest + ", ");
        { assert (a0 + ", ") + " " + (rest + ", ") == (a0 + ",  " + rest) + ", "; }
        (a0 + ",  " + rest) + ", ";
        Assignments(entries) + ", ";
      }
    }
  }

  /** The subtraction never underflows once there is at least one pair to render. */
  lemma NeverUnderflows(entries: seq<Entry>)
    requires |entries| >= 1
    ensures ByteLen(Joined(entries)) >= 2
  {
    JoinedShape(entries);
    ByteLenAppend(Assignments(entries), ", ");
    ByteLenBounds(", ");
  }

  /** With no pair at all the subtraction would underflow. */
  lemma EmptyUnderflows()
    ensures ByteLen(Joined([])) < 2
  {
  }

  /** The bytes beyond one per character: zero exactly for ASCII text. */
  function Extra(s: string): nat
  {
    ByteLenBounds(s);
    ByteLen(s) - |s|
  }

  /**
   * The clause as written is the intended assignments followed by as much of
   * the trailing ", " as there are extra bytes in the text (at most all of it).
   */
  lemma SetClauseAsWritten(entries: seq<Entry>)
    requires |entries| >= 1
    ensures ByteLen(Joined(entries)) >= 2
    ensures SetClause(entries) ==
      Assignments(entries) + ", "[..if Extra(Joined(entries)) < 2 then Extra(Joined(entries)) else 2]
  {
    NeverUnderflows(entries);
    JoinedShape(entries);
    var a := Assignments(entries);
    var j := Joined(entries);
    ByteLenBounds(j);
    var n := ByteLen(j) - 2;
    assert n == |a| + Extra(j);
    if Extra(j) < 2 {
      assert j[..n] == a + ", "[..Extra(j)];
    } else {
      assert j[..|j|] == a + ", ";
    }
  }

  lemma ExtraAppend(a: string, b: string)
    ensures Extra(a + b) == Extra(a) + Extra(b)
  {
    ByteLenAppend(a, b);
  }

  /** The extra bytes of all keys and values. */
  function PairsExtra(entries: seq<Entry>): nat
  {
    if entries == [] then 0 else Extra(entries[0].0) + Extra(entries[0].1) + PairsExtra(entries[1..])
  }

  lemma ExtraAssignment(e: Entry)
    ensures Extra(Assignment(e)) == Extra(e.0) + Extra(e.1)
  {
    assert Extra(" = nullif('") == 0;
    assert Extra("', '')") == 0;
    ExtraAppend(e.0, " = nullif('");
    ExtraAppend(e.0 + " = nullif('", e.1);
    ExtraAppend(e.0 + " = nullif('" + e.1, "', '')");
  }

  /** The template adds only ASCII, so the extra bytes of the text are those of the keys and values. */
  lemma {:induction false} JoinedExtra(entries: seq<Entry>)
    requires |entries| >= 1
    ensures Extra(Joined(entries)) == PairsExtra(entries)
  {
    JoinedShape(entries);
    AssignmentsExtra(entries);
    assert Extra(", ") == 0;
    ExtraAppend(Assignments(entries), ", ");
  }

  lemma {:induction false} AssignmentsExtra(entries: seq<Entry>)
    requires |entries| >= 1
    ensures Extra(Assignments(entries)) == PairsExtra(entries)
  {
    ExtraAssignment(entries[0]);
    var parts := AssignmentList(entries);
    assert parts[0] == Assignment(entries[0]) && parts[1..] == AssignmentList(entries[1..]);
    if |entries| == 1 {
      assert entries[1..] == [];
    } else {
      AssignmentsExtra(entries[1..]);
      assert Extra(",  ") == 0;
      ExtraAppend(Assignment(entries[0]), ",  ");
      ExtraAppend(Assignment(entries[0]) + ",  ", Assignments(entries[1..]));
    }
  }

  /** Every key and value is ASCII. */
  predicate PairsAscii(entries: seq<Entry>)
  {
    forall i :: 0 <= i < |entries| ==> IsAscii(entries[i].0) && IsAscii(entries[i].1)
  }

  lemma {:induction false} PairsExtraZero(entries: seq<Entry>)
    ensures PairsExtra(entries) == 0 <==> PairsAscii(entries)
  {
    if entries != [] {
      PairsExtraZero(entries[1..]);
      ByteLenBounds(entries[0].0);
      ByteLenBounds(entries[0].1);
      assert forall i :: 1 <= i < |entries| ==> entries[i] == entries[1..][i - 1];
    }
  }

  /** With ASCII keys and values the clause as written is exactly the intended one: no trailing comma. */
  lemma SetClauseAscii(entries: seq<Entry>)
    requires |entries| >= 1 && PairsAscii(entries)
    ensures ByteLen(Joined(entries)) >= 2
    ensures SetClause(entries) == Assignments(entries)
  {
    SetClauseAsWritten(entries);
    JoinedExtra(entries);
    PairsExtraZero(entries);
  }

  /** Any multi-byte character in a key or value leaves part of the trailing ", " in the clause. */
  lemma SetClauseMultiByte(entries: seq<Entry>)
    requires |entries| >= 1 && !PairsAscii(entries)
    ensures ByteLen(Joined(entries)) >= 2
    ensures SetClause(entries) == Assignments(entries) + "," || SetClause(entries) == Assignments(entries) + ", "
  {
    SetClauseAsWritten(entries);
    JoinedExtra(entries);
    PairsExtraZero(entries);
  }

  /** Two pairs give their assignments separated by ",  ". */
  lemma TwoPairAssignments(a: Entry, b: Entry)
    ensures Assignments([a, b]) == Assignment(a) + ",  " + Assignment(b)
  {
    assert [a, b][1..] == [b];
    assert [b][1..] == [];
    assert AssignmentList([b]) == [Assignment(b)];
    var parts := AssignmentList([a, b]);
    assert parts == [Assignment(a), Assignment(b)];
    assert parts[1..] == [Assignment(b)];
    assert Join(parts, ",  ") == parts[0] + ",  " + Join(parts[1..], ",  ");
  }

  /** Exactly one extra byte in the joined text leaves the comma of the trailing ", ". */
  lemma SetClauseOneExtraByte(entries: seq<Entry>)
    requires |entries| >= 1 && Extra(Joined(entries)) == 1
    ensures ByteLen(Joined(entries)) >= 2
    ensures SetClause(entries) == Assignments(entries) + ","
  {
    SetClauseAsWritten(entries);
    assert ", "[..1] == ",";
  }

  lemma AccentedPairsExtra(image: string)
    requires IsAscii(image)
    ensures PairsExtra([("full_name", "Jos\U{E9}"), ("image", image)]) == 1
  {
    var entries := [("full_name", "Jos\U{E9}"), ("image", image)];
    ByteLenBounds(image);
    assert Extra("full_name") == 0;
    assert Extra("image") == 0;
    assert Extra("Jos\U{E9}") == 1;
    assert entries[1..][1..] == [];
    assert PairsExtra(entries[1..]) == 0;
  }

  /** A full name with one two-byte character ("Jos\U{E9}"): the clause keeps a trailing comma. */
  lemma AccentedNameLeavesComma(image: string)
    requires IsAscii(image)
    ensures ByteLen(Joined([("full_name", "Jos\U{E9}"), ("image", image)])) >= 2
    ensures SetClause([("full_name", "Jos\U{E9}"), ("image", image)]) ==
      Assignment(("full_name", "Jos\U{E9}")) + ",  " + Assignment(("image", image)) + ","
  {
    var name, img := ("full_name", "Jos\U{E9}"), ("image", image);
    AccentedPairsExtra(image);
    JoinedExtra([name, img]);
    SetClauseOneExtraByte([name, img]);
    TwoPairAssignments(name, img);
  }

  /** The clause with the trailing ", " removed by character count. */
  function SetClauseIntended(entries: seq<Entry>): (clause: string)
    requires |entries| >= 1
    ensures clause == Assignments(entries)
  {
    JoinedShape(entries);
    var joined := Joined(entries);
    joined[..|joined| - 2]
  }

  /** For two pairs, the intended clause is the two assignments separated by ",  ". */
  lemma TwoPairClause(a: Entry, b: Entry)
    ensures SetClauseIntended([a, b]) == Assignment(a) + ",  " + Assignment(b)
  {
    TwoPairAssignments(a, b);
  }
}
