/** Column values of the policy rule table and the adapter's trimming of trailing empty values. */
module Fields {

  datatype Option<T> = None | Some(value: T)

  /** Number of value columns, v0..v5, in the rule table. */
  const Width: nat := 6

  /** A column value the adapter treats as empty: SQL NULL or the empty string
      (in PHP `'' != null` is false, so both fail the adapter's non-empty tests). */
  predicate IsBlank(f: Option<string>)
  {
    f.None? || f.value == ""
  }

  /** Supplied strings as non-null column values, position by position. */
  function Lift(s: seq<string>): (r: seq<Option<string>>)
    ensures |r| == |s|
    ensures forall i :: 0 <= i < |s| ==> r[i] == Some(s[i])
  {
    if s == [] then [] else [Some(s[0])] + Lift(s[1..])
  }

  lemma {:induction false} LiftAppend(a: seq<string>, b: seq<string>)
    ensures Lift(a + b) == Lift(a) + Lift(b)
  {
    if a != [] {
      assert (a + b)[1..] == a[1..] + b;
      LiftAppend(a[1..], b);
    }
  }

  /** What `filterRule` returns: the rule cut just after its last non-blank value. */
  function TrimTrailingBlanks(rule: seq<Option<string>>): seq<Option<string>>
  {
    if rule == [] then []
    else if IsBlank(rule[|rule| - 1]) then TrimTrailingBlanks(rule[..|rule| - 1])
    else rule
  }

  /** The trimmed rule is a prefix of the rule, is empty or ends in a non-blank value, and every
      value cut off is blank. */
  lemma {:induction false} TrimTrailingBlanksSpec(rule: seq<Option<string>>)
    ensures var r := TrimTrailingBlanks(rule);
      && |r| <= |rule| && r == rule[..|r|]
      && (r == [] || !IsBlank(r[|r| - 1]))
      && forall k :: |r| <= k < |rule| ==> IsBlank(rule[k])
  {
    if rule != [] && IsBlank(rule[|rule| - 1]) {
      var shorter := rule[..|rule| - 1];
      TrimTrailingBlanksSpec(shorter);
      var r := TrimTrailingBlanks(shorter);
      assert shorter[..|r|] == rule[..|r|];
    }
  }

  /** Columns that are all empty or null are cut down to the empty rule. */
  lemma {:induction false} TrimTrailingBlanksAllBlank(v: seq<Option<string>>)
    requires forall k :: 0 <= k < |v| ==> IsBlank(v[k])
    ensures TrimTrailingBlanks(v) == []
  {
    if v != [] {
      TrimTrailingBlanksAllBlank(v[..|v| - 1]);
    }
  }

  /** Trimming twice is trimming once. */
  lemma {:induction false} TrimTrailingBlanksIdempotent(rule: seq<Option<string>>)
    ensures TrimTrailingBlanks(TrimTrailingBlanks(rule)) == TrimTrailingBlanks(rule)
  {
    TrimTrailingBlanksSpec(rule);
    var r := TrimTrailingBlanks(rule);
    if r != [] {
      assert !IsBlank(r[|r| - 1]);
    }
  }

  /** Blanks before the last non-blank value are kept: only a blank tail is cut. */
  lemma {:induction false} TrimTrailingBlanksKeepsInterior(head: seq<Option<string>>, x: string, tail: seq<Option<string>>)
    requires x != ""
    requires forall k :: 0 <= k < |tail| ==> IsBlank(tail[k])
    ensures TrimTrailingBlanks(head + [Some(x)] + tail) == head + [Some(x)]
  {
    if tail == [] {
      assert head + [Some(x)] + tail == head + [Some(x)];
    } else {
      var s := head + [Some(x)] + tail;
      assert s[..|s| - 1] == head + [Some(x)] + tail[..|tail| - 1];
      assert IsBlank(s[|s| - 1]);
      TrimTrailingBlanksKeepsInterior(head, x, tail[..|tail| - 1]);
    }
  }
}
