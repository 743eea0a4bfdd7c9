/** Table naming and WHERE-fragment normalisation (qlx.go). The snake-case
    converter is a library the model does not contain, so it is a parameter. */
module Naming {
  import opened Strings

  /** The table name for an already snake-cased type name: `user` and `order`
      are SQL keywords and get an `s`, everything else is kept. */
  function TableNameOf(snake: string): (r: string)
    ensures r != snake <==> snake in {"user", "order"}
    ensures r == snake || r == snake + "s"
  {
    if snake == "user" || snake == "order" then snake + "s" else snake
  }

  /** `ToTableName(s)`: snake-case the Go type name, then avoid the two keywords. */
  function ToTableName(toSnake: string -> string, typeName: string): string {
    TableNameOf(toSnake(typeName))
  }

  /** Two snake forms share a table exactly in the two keyword cases: `user` lands
      on the same table as a type already called `users`, and likewise `order`. */
  lemma TableNameCollisions(a: string, b: string)
    requires a != b
    ensures TableNameOf(a) == TableNameOf(b) <==>
      || (a == "user" && b == "users") || (a == "users" && b == "user")
      || (a == "order" && b == "orders") || (a == "orders" && b == "order")
  {
  }

  /** `toWhere(where)`: drop leading blanks; a non-empty fragment that does not
      start with the keyword gets ` where ` in front of it. */
  function ToWhere(where: string): (r: string)
    ensures r == [] <==> forall i :: 0 <= i < |where| ==> where[i] == ' '
    ensures r == [] || HasPrefix(r, " where ") || HasPrefix(r, "where")
    ensures var t := TrimLeadingSpaces(where);
      |t| <= |r| && r[|r| - |t|..] == t
  {
    var t := TrimLeadingSpaces(where);
    if t != "" && !HasPrefix(t, "where") then " where " + t else t
  }

  /** The keyword is never doubled: a fragment that already starts with `where`
      (after blanks) comes back without a second one, and the output only has a
      leading ` where ` when the fragment lacked it. */
  lemma ToWhereNeverDoublesKeyword(where: string)
    ensures HasPrefix(TrimLeadingSpaces(where), "where") ==>
      ToWhere(where) == TrimLeadingSpaces(where)
    ensures HasPrefix(ToWhere(where), " where ") ==>
      !HasPrefix(TrimLeadingSpaces(where), "where")
  {
    var t := TrimLeadingSpaces(where);
    if HasPrefix(t, "where") {
      assert t != "" && t[0] != ' ';
      assert !HasPrefix(t, " where ") by {
        if 7 <= |t| { assert t[..7][0] == t[0]; }
      }
    }
  }

  /** An empty or all-blank fragment means "no filter". */
  lemma ToWhereOfBlank(blanks: nat)
    ensures ToWhere(seq(blanks, _ => ' ')) == ""
  {
    TrimBlanks(blanks, "");
    assert seq(blanks, _ => ' ') + "" == seq(blanks, _ => ' ');
  }

  /** A run of blanks in front of a fragment is exactly what the trim removes. */
  lemma {:induction false} TrimBlanks(n: nat, p: string)
    requires p == [] || p[0] != ' '
    ensures TrimLeadingSpaces(seq(n, _ => ' ') + p) == p
    decreases n
  {
    var s := seq(n, _ => ' ') + p;
    if n == 0 {
      assert s == p;
    } else {
      assert s[0] == ' ';
      assert s[1..] == seq(n - 1, _ => ' ') + p;
      TrimBlanks(n - 1, p);
    }
  }

  /** A bare predicate gets the keyword, after its leading blanks are dropped. */
  lemma ToWhereOfBarePredicate(blanks: nat, p: string)
    requires p != [] && p[0] != ' ' && !HasPrefix(p, "where")
    ensures ToWhere(seq(blanks, _ => ' ') + p) == " where " + p
  {
    TrimBlanks(blanks, p);
  }

  /** A predicate that already has the keyword is left as it is, blanks dropped. */
  lemma ToWhereOfKeywordPredicate(blanks: nat, p: string)
    requires HasPrefix(p, "where")
    ensures ToWhere(seq(blanks, _ => ' ') + p) == p
  {
    TrimBlanks(blanks, p);
  }

  /** Normalising twice is not normalising once: the added ` where ` is itself
      trimmed to `where ...` on a second pass. */
  lemma ToWhereNotIdempotent(p: string)
    requires p != [] && p[0] != ' ' && !HasPrefix(p, "where")
    ensures ToWhere(ToWhere(p)) == "where " + p
    ensures ToWhere(ToWhere(p)) != ToWhere(p)
  {
    var w := "where " + p;
    BareGetsBlankAndKeyword(p);
    KeywordAfterOneBlank(w);
    assert w[0] != ([' '] + w)[0];
  }

  lemma BareGetsBlankAndKeyword(p: string)
    requires p != [] && p[0] != ' ' && !HasPrefix(p, "where")
    ensures ToWhere(p) == [' '] + ("where " + p)
  {
    ToWhereOfBarePredicate(0, p);
    assert seq(0, _ => ' ') + p == p;
    BlankBeforeKeyword(p);
  }

  lemma BlankBeforeKeyword(p: string)
    ensures " where " + p == [' '] + ("where " + p)
  {
    assert " where " == [' '] + "where ";
  }

  lemma KeywordAfterOneBlank(w: string)
    requires |w| >= 5 && w[..5] == "where"
    ensures ToWhere([' '] + w) == w
  {
    ToWhereOfKeywordPredicate(1, w);
    assert seq(1, _ => ' ') == [' '];
  }

  /** The keyword test is a plain prefix test, so a column whose name starts with
      `where` gets no keyword in front of it. */
  lemma ToWherePrefixQuirk()
    ensures ToWhere("whereabouts = 1") == "whereabouts = 1"
  {
    var p := "whereabouts = 1";
    assert p[..5] == "where";
    ToWhereOfKeywordPredicate(0, p);
    assert seq(0, _ => ' ') + p == p;
  }
}
