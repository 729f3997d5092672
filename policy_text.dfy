/** The text lines `loadPolicy` builds from rows, and the `explode(', ', line)` that reads them back. */
module PolicyText {
  import opened Fields
  import opened RuleRows

  /** The fields of a row as `loadPolicy` selects them: ptype, then v0..v5. */
  function RowFields(row: Row): seq<Option<string>>
  {
    [Some(row.ptype)] + row.v
  }

  /** `array_filter` with the adapter's callback: the values that are neither empty nor null, in order. */
  function KeptValues(fields: seq<Option<string>>): (kept: seq<string>)
    ensures |kept| <= |fields|
    ensures forall x :: x in kept <==> x != "" && Some(x) in fields
  {
    if fields == [] then []
    else (if IsBlank(fields[0]) then [] else [fields[0].value]) + KeptValues(fields[1..])
  }

  /** `implode(', ', parts)`. */
  function Join(parts: seq<string>): string
  {
    if parts == [] then ""
    else if |parts| == 1 then parts[0]
    else parts[0] + ", " + Join(parts[1..])
  }

  /** The characters PHP's `trim` strips by default: space, tab, line feed, carriage return, NUL
      and vertical tab. */
  predicate IsTrimmed(c: char)
  {
    c == ' ' || c == '\t' || c == '\n' || c == '\r' || c == '\0' || c == (11 as char)
  }

  /** `trim`'s removal of strippable characters from the end. */
  function TrimEnd(s: string): string
  {
    if s != [] && IsTrimmed(s[|s| - 1]) then TrimEnd(s[..|s| - 1]) else s
  }

  /** `trim`'s removal of strippable characters from the start. */
  function TrimStart(s: string): string
  {
    if s != [] && IsTrimmed(s[0]) then TrimStart(s[1..]) else s
  }

  /** Trimming the end keeps a prefix, removes only strippable characters, and leaves none at the end. */
  lemma {:induction false} TrimEndSpec(s: string)
    ensures var r := TrimEnd(s);
      && |r| <= |s| && r == s[..|r|]
      && (r == [] || !IsTrimmed(r[|r| - 1]))
      && forall k :: |r| <= k < |s| ==> IsTrimmed(s[k])
  {
    if s != [] && IsTrimmed(s[|s| - 1]) {
      TrimEndSpec(s[..|s| - 1]);
    }
  }

  /** Trimming the start keeps a suffix, removes only strippable characters, and leaves none at the start. */
  lemma {:induction false} TrimStartSpec(s: string)
    ensures var r := TrimStart(s);
      && |r| <= |s| && r == s[|s| - |r|..]
      && (r == [] || !IsTrimmed(r[0]))
      && forall k :: 0 <= k < |s| - |r| ==> IsTrimmed(s[k])
  {
    if s != [] && IsTrimmed(s[0]) {
      var t := s[1..];
      TrimStartSpec(t);
      var r := TrimStart(t);
      assert t[|t| - |r|..] == s[|s| - |r|..];
      forall k | 0 <= k < |s| - |r|
        ensures IsTrimmed(s[k])
      {
        if k > 0 {
          assert s[k] == t[k - 1];
        }
      }
    }
  }

  /** PHP's `trim` with its default character list. */
  function Trim(s: string): string
  {
    TrimStart(TrimEnd(s))
  }

  /** Trimming leaves no strippable character at either end, and removes only such characters. */
  lemma {:induction false} TrimLeavesCleanEdges(s: string)
    ensures var r := Trim(s);
      && (r == [] || (!IsTrimmed(r[0]) && !IsTrimmed(r[|r| - 1])))
      && exists i, j :: 0 <= i <= j <= |s| && r == s[i..j] &&
           (forall k :: 0 <= k < i ==> IsTrimmed(s[k])) && (forall k :: j <= k < |s| ==> IsTrimmed(s[k]))
  {
    var e := TrimEnd(s);
    var r := TrimStart(e);
    TrimEndSpec(s);
    TrimStartSpec(e);
    var i := |e| - |r|;
    var j := |e|;
    assert e == s[..j];
    assert r == s[i..j];
    forall k | 0 <= k < i
      ensures IsTrimmed(s[k])
    {
      assert s[k] == e[k];
    }
    if r != [] {
      assert r[|r| - 1] == e[|e| - 1];
    }
    assert 0 <= i <= j <= |s| && r == s[i..j] &&
      (forall k :: 0 <= k < i ==> IsTrimmed(s[k])) && (forall k :: j <= k < |s| ==> IsTrimmed(s[k]));
  }

  /** A string with no strippable character at its ends is left as it is. */
  lemma {:induction false} TrimKeepsCleanString(s: string)
    requires s == [] || (!IsTrimmed(s[0]) && !IsTrimmed(s[|s| - 1]))
    ensures Trim(s) == s
  {
  }

  /** The line `loadPolicy` hands to the engine for one row: the non-empty fields among
      ptype, v0..v5, joined by ", " and trimmed. */
  function PolicyLine(row: Row): string
  {
    Trim(Join(KeptValues(RowFields(row))))
  }

  /** `explode(', ', s)`: the pieces of `s` between occurrences of the separator ", ". */
  function Explode(s: string): (parts: seq<string>)
    ensures |parts| >= 1
    decreases |s|
  {
    if |s| >= 2 && s[0] == ',' && s[1] == ' ' then [""] + Explode(s[2..])
    else if s == [] then [""]
    else
      var rest := Explode(s[1..]);
      [[s[0]] + rest[0]] + rest[1..]
  }

  /** A value that reads back unchanged from a line: no comma in it, and no strippable character at
      its ends. */
  predicate PlainValue(s: string)
  {
    (forall k :: 0 <= k < |s| ==> s[k] != ',') && (s == [] || (!IsTrimmed(s[0]) && !IsTrimmed(s[|s| - 1])))
  }

  lemma {:induction false} KeptValuesAppend(a: seq<Option<string>>, b: seq<Option<string>>)
    ensures KeptValues(a + b) == KeptValues(a) + KeptValues(b)
  {
    if a == [] {
      assert a + b == b;
    } else {
      assert (a + b)[1..] == a[1..] + b;
      KeptValuesAppend(a[1..], b);
    }
  }

  /** An empty or null field anywhere, interior positions included, contributes nothing to the line. */
  lemma {:induction false} KeptValuesSkipsBlank(a: seq<Option<string>>, f: Option<string>, b: seq<Option<string>>)
    requires IsBlank(f)
    ensures KeptValues(a + [f] + b) == KeptValues(a + b)
  {
    assert KeptValues([f]) == [] by {
      assert [f][1..] == [];
    }
    calc {
      KeptValues(a + [f] + b);
      { KeptValuesAppend(a + [f], b); }
      KeptValues(a + [f]) + KeptValues(b);
      { KeptValuesAppend(a, [f]); }
      KeptValues(a) + KeptValues(b);
      { KeptValuesAppend(a, b); }
      KeptValues(a + b);
    }
  }

  /** Trimming a rule's blank tail, as `filterRule` does, changes nothing in the line it loads as. */
  lemma {:induction false} KeptValuesIgnoresBlankTail(fields: seq<Option<string>>)
    ensures KeptValues(TrimTrailingBlanks(fields)) == KeptValues(fields)
  {
    TrimTrailingBlanksSpec(fields);
    var r := TrimTrailingBlanks(fields);
    var tail := fields[|r|..];
    assert fields == r + tail;
    KeptValuesAppend(r, tail);
    KeptValuesOfBlanks(tail);
  }

  lemma {:induction false} KeptValuesOfBlanks(fields: seq<Option<string>>)
    requires forall k :: 0 <= k < |fields| ==> IsBlank(fields[k])
    ensures KeptValues(fields) == []
  {
    if fields != [] {
      KeptValuesOfBlanks(fields[1..]);
    }
  }

  lemma {:induction false} KeptValuesOfLift(rule: seq<string>)
    requires forall k :: 0 <= k < |rule| ==> rule[k] != ""
    ensures KeptValues(Lift(rule)) == rule
  {
    if rule != [] {
      KeptValuesOfLift(rule[1..]);
    }
  }

  lemma {:induction false} KeptValuesNonEmpty(fields: seq<Option<string>>)
    ensures forall k :: 0 <= k < |KeptValues(fields)| ==> KeptValues(fields)[k] != ""
  {
    var kept := KeptValues(fields);
    forall k | 0 <= k < |kept|
      ensures kept[k] != ""
    {
      assert kept[k] in kept;
    }
  }

  lemma {:induction false} ExplodeWithoutSeparator(x: string)
    requires forall k :: 0 <= k < |x| ==> x[k] != ','
    ensures Explode(x) == [x]
  {
    if x != [] {
      ExplodeWithoutSeparator(x[1..]);
      assert [x[0]] + x[1..] == x;
    }
  }

  lemma {:induction false} ExplodeSeparated(x: string, t: string)
    requires forall k :: 0 <= k < |x| ==> x[k] != ','
    ensures Explode(x + ", " + t) == [x] + Explode(t)
  {
    var s := x + ", " + t;
    if x == [] {
      assert s == ", " + t && s[2..] == t;
    } else {
      assert s[1..] == x[1..] + ", " + t;
      ExplodeSeparated(x[1..], t);
      assert [x[0]] + x[1..] == x;
    }
  }

  /** Exploding a joined list gives the list back, when no part holds a comma. */
  lemma {:induction false} ExplodeJoin(parts: seq<string>)
    requires |parts| >= 1
    requires forall i, k :: 0 <= i < |parts| && 0 <= k < |parts[i]| ==> parts[i][k] != ','
    ensures Explode(Join(parts)) == parts
  {
    if |parts| == 1 {
      ExplodeWithoutSeparator(parts[0]);
    } else {
      ExplodeJoin(parts[1..]);
      ExplodeSeparated(parts[0], Join(parts[1..]));
    }
  }

  /** A joined list of non-empty parts starts with its first part's first character and ends with
      its last part's last character. */
  lemma {:induction false} JoinEdges(parts: seq<string>)
    requires |parts| >= 1
    requires forall i :: 0 <= i < |parts| ==> parts[i] != ""
    ensures var s := Join(parts);
      |s| > 0 && s[0] == parts[0][0] && s[|s| - 1] == parts[|parts| - 1][|parts[|parts| - 1]| - 1]
  {
    if |parts| > 1 {
      JoinEdges(parts[1..]);
    }
  }

  /** The engine's reading of a loaded line, `explode(', ', line)`, gives back exactly the row's
      non-empty fields in order, ptype first, when those fields are plain values. */
  lemma {:induction false} LineReadsBackKeptValues(row: Row)
    requires row.ptype != ""
    requires forall k :: 0 <= k < |KeptValues(RowFields(row))| ==> PlainValue(KeptValues(RowFields(row))[k])
    ensures Explode(PolicyLine(row)) == KeptValues(RowFields(row))
  {
    var kept := KeptValues(RowFields(row));
    assert RowFields(row) == [Some(row.ptype)] + row.v;
    KeptValuesAppend([Some(row.ptype)], row.v);
    assert kept[0] == row.ptype;
    KeptValuesNonEmpty(RowFields(row));
    JoinEdges(kept);
    TrimKeepsCleanString(Join(kept));
    ExplodeJoin(kept);
  }

  /** The non-empty fields of a row saved for any rule: ptype (when not empty), then the rule's
      non-empty values in order; the null columns after the rule contribute nothing. */
  lemma {:induction false} KeptValuesOfEncodedRule(id: nat, ptype: string, rule: seq<string>)
    requires FitsColumns(rule)
    ensures KeptValues(RowFields(Row(id, ptype, Encode(ptype, rule).v)))
            == (if ptype == "" then [] else [ptype]) + KeptValues(Lift(rule))
  {
    var nulls: seq<Option<string>> := seq(Width - |rule|, _ => None);
    assert RowFields(Row(id, ptype, Encode(ptype, rule).v)) == [Some(ptype)] + Lift(rule) + nulls;
    KeptValuesAppend([Some(ptype)] + Lift(rule), nulls);
    KeptValuesAppend([Some(ptype)], Lift(rule));
    KeptValuesOfBlanks(nulls);
    assert KeptValues([Some(ptype)]) == (if ptype == "" then [] else [ptype]) by {
      assert [Some(ptype)][1..] == [];
    }
  }

  /** A rule saved by `savePolicyLine` loads back as a line that splits into its ptype followed by
      its non-empty values in order (an empty value is dropped and the later values move up); a
      rule without empty values reads back as exactly itself. Every value must be plain. */
  lemma {:induction false} SavedRuleReadsBack(id: nat, ptype: string, rule: seq<string>)
    requires FitsColumns(rule)
    requires ptype != "" && PlainValue(ptype)
    requires forall k :: 0 <= k < |rule| ==> PlainValue(rule[k])
    ensures Explode(PolicyLine(Row(id, ptype, Encode(ptype, rule).v))) == [ptype] + KeptValues(Lift(rule))
    ensures (forall k :: 0 <= k < |rule| ==> rule[k] != "") ==>
            Explode(PolicyLine(Row(id, ptype, Encode(ptype, rule).v))) == [ptype] + rule
  {
    var row := Row(id, ptype, Encode(ptype, rule).v);
    KeptValuesOfEncodedRule(id, ptype, rule);
    var kept := KeptValues(RowFields(row));
    forall k | 0 <= k < |kept|
      ensures PlainValue(kept[k])
    {
      if k > 0 {
        var x := kept[k];
        assert x in KeptValues(Lift(rule));
        var i :| 0 <= i < |rule| && Lift(rule)[i] == Some(x);
      }
    }
    LineReadsBackKeptValues(row);
    if forall k :: 0 <= k < |rule| ==> rule[k] != "" {
      KeptValuesOfLift(rule);
    }
  }

  /** An empty value anywhere in a rule is dropped from the line it loads as, so the values after
      it move one place left: the rule a + [""] + b loads as the same line as the rule a + b. */
  lemma {:induction false} InteriorEmptyValueShiftsLine(id: nat, ptype: string, a: seq<string>, b: seq<string>)
    requires |a| + 1 + |b| <= Width
    ensures PolicyLine(Row(id, ptype, Encode(ptype, a + [""] + b).v)) == PolicyLine(Row(id, ptype, Encode(ptype, a + b).v))
  {
    KeptValuesOfEncodedRule(id, ptype, a + [""] + b);
    KeptValuesOfEncodedRule(id, ptype, a + b);
    LiftAppend(a + [""], b);
    LiftAppend(a, [""]);
    LiftAppend(a, b);
    assert Lift([""]) == [Some("")];
    KeptValuesSkipsBlank(Lift(a), Some(""), Lift(b));
  }
}
