/** `inverse_multidict` (nodes/nodestats.py): turns a table from group name
    to a list of members into a lookup from member to group name, refusing
    any member listed twice. A Python dict is modelled by the sequence of its
    entries in iteration order. */
module Multidict {
  import opened Common

  type Multidict = seq<(string, seq<string>)>

  ghost predicate NoDuplicates(s: seq<string>)
  {
    forall i, j :: 0 <= i < j < |s| ==> s[i] != s[j]
  }

  /** Position `j` holds the first element of `s` that was already seen. */
  ghost predicate FirstRepeatAt(s: seq<string>, j: int)
  {
    0 <= j < |s| && s[j] in s[..j] && NoDuplicates(s[..j])
  }

  /** All members of all lists, in the order the nested loop visits them. */
  function Elements(md: Multidict): seq<string>
    decreases |md|
  {
    if |md| == 0 then [] else md[0].1 + Elements(md[1..])
  }

  // ---------------------------------------------------------------------
  // The operation, shaped like the source's nested loop.

  /** Inner loop: adds every member of one list under the group name `k`. */
  function AddGroup(inv: map<string, string>, k: string, v: seq<string>): Result<map<string, string>>
    decreases |v|
  {
    if |v| == 0 then Ok(inv)
    else if v[0] in inv then Err(DuplicateValue(v[0]))
    else AddGroup(inv[v[0] := k], k, v[1..])
  }

  /** Outer loop over the entries of the table. */
  function InvertFrom(inv: map<string, string>, md: Multidict): Result<map<string, string>>
    decreases |md|
  {
    if |md| == 0 then Ok(inv)
    else match AddGroup(inv, md[0].0, md[0].1)
      case Err(e) => Err(e)
      case Ok(inv') => InvertFrom(inv', md[1..])
  }

  /** The inverse lookup, or the first member found a second time. */
  function InverseMultidict(md: Multidict): (r: Result<map<string, string>>)
    ensures r.Ok? <==> NoDuplicates(Elements(md))
    ensures r.Ok? ==> forall e :: e in r.value <==> e in Elements(md)
    ensures r.Ok? ==> forall i, e :: 0 <= i < |md| && e in md[i].1 ==> e in r.value && r.value[e] == md[i].0
    ensures r.Err? ==> exists j :: FirstRepeatAt(Elements(md), j) && r.error == DuplicateValue(Elements(md)[j])
  {
    InvertFromIsInsertPairs(map[], md);
    ElementsArePairFirsts(md);
    PairsCoverMembers(md);
    InsertPairsOkIff(map[], Pairs(md));
    var r := InvertFrom(map[], md);
    if r.Ok? then
      InsertPairsContents(map[], Pairs(md));
      r
    else
      InsertPairsErr(map[], Pairs(md));
      assert forall j :: Blocked(map[], Elements(md), j) ==> FirstRepeatAt(Elements(md), j);
      r
  }

  // ---------------------------------------------------------------------
  // Reference view: one flat loop over (member, group name) pairs.

  function PairsOf(k: string, v: seq<string>): (ps: seq<(string, string)>)
    ensures |ps| == |v|
    ensures forall i :: 0 <= i < |v| ==> ps[i] == (v[i], k)
  {
    seq(|v|, i requires 0 <= i < |v| => (v[i], k))
  }

  function Pairs(md: Multidict): seq<(string, string)>
    decreases |md|
  {
    if |md| == 0 then [] else PairsOf(md[0].0, md[0].1) + Pairs(md[1..])
  }

  function Firsts(ps: seq<(string, string)>): (f: seq<string>)
    ensures |f| == |ps|
    ensures forall i :: 0 <= i < |ps| ==> f[i] == ps[i].0
  {
    seq(|ps|, i requires 0 <= i < |ps| => ps[i].0)
  }

  function InsertPairs(inv: map<string, string>, ps: seq<(string, string)>): Result<map<string, string>>
    decreases |ps|
  {
    if |ps| == 0 then Ok(inv)
    else if ps[0].0 in inv then Err(DuplicateValue(ps[0].0))
    else InsertPairs(inv[ps[0].0 := ps[0].1], ps[1..])
  }

  /** Position `j` of `f` is where inserting into `inv` first collides. */
  ghost predicate Blocked(inv: map<string, string>, f: seq<string>, j: int)
  {
    && 0 <= j < |f|
    && (f[j] in inv || f[j] in f[..j])
    && NoDuplicates(f[..j])
    && forall i :: 0 <= i < j ==> f[i] !in inv
  }

  lemma {:induction false} AddGroupThen(inv: map<string, string>, k: string, v: seq<string>, rest: seq<(string, string)>)
    ensures InsertPairs(inv, PairsOf(k, v) + rest)
            == (match AddGroup(inv, k, v)
                case Err(e) => Err(e)
                case Ok(inv') => InsertPairs(inv', rest))
    decreases |v|
  {
    var ps := PairsOf(k, v) + rest;
    if |v| == 0 {
      assert ps == rest;
    } else {
      assert ps[0] == (v[0], k);
      assert ps[1..] == PairsOf(k, v[1..]) + rest;
      if v[0] !in inv {
        AddGroupThen(inv[v[0] := k], k, v[1..], rest);
      }
    }
  }

  lemma {:induction false} InvertFromIsInsertPairs(inv: map<string, string>, md: Multidict)
    ensures InvertFrom(inv, md) == InsertPairs(inv, Pairs(md))
    decreases |md|
  {
    if |md| > 0 {
      AddGroupThen(inv, md[0].0, md[0].1, Pairs(md[1..]));
      match AddGroup(inv, md[0].0, md[0].1)
      case Err(e) =>
      case Ok(inv') => InvertFromIsInsertPairs(inv', md[1..]);
    }
  }

  lemma {:induction false} ElementsArePairFirsts(md: Multidict)
    ensures Elements(md) == Firsts(Pairs(md))
    decreases |md|
  {
    if |md| > 0 {
      ElementsArePairFirsts(md[1..]);
      var a := PairsOf(md[0].0, md[0].1);
      var b := Pairs(md[1..]);
      assert Firsts(a + b) == Firsts(a) + Firsts(b);
      assert Firsts(a) == md[0].1;
    }
  }

  lemma {:induction false} PairsCoverMembers(md: Multidict)
    ensures forall i, e :: 0 <= i < |md| && e in md[i].1 ==> (e, md[i].0) in Pairs(md)
    decreases |md|
  {
    if |md| > 0 {
      PairsCoverMembers(md[1..]);
      var a := PairsOf(md[0].0, md[0].1);
      forall i, e | 0 <= i < |md| && e in md[i].1
        ensures (e, md[i].0) in Pairs(md)
      {
        if i == 0 {
          var n :| 0 <= n < |md[0].1| && md[0].1[n] == e;
          assert a[n] == (e, md[0].0);
        } else {
          assert md[1..][i - 1] == md[i];
        }
      }
    }
  }

  /** The flat loop succeeds exactly when no member repeats and none is
      already in the starting lookup. */
  lemma {:induction false} InsertPairsOkIff(inv: map<string, string>, ps: seq<(string, string)>)
    ensures InsertPairs(inv, ps).Ok?
            <==> NoDuplicates(Firsts(ps)) && forall i :: 0 <= i < |ps| ==> ps[i].0 !in inv
    decreases |ps|
  {
    if |ps| > 0 && ps[0].0 !in inv {
      var inv' := inv[ps[0].0 := ps[0].1];
      var f, f' := Firsts(ps), Firsts(ps[1..]);
      InsertPairsOkIff(inv', ps[1..]);
      if InsertPairs(inv', ps[1..]).Ok? {
        forall i, j | 0 <= i < j < |f|
          ensures f[i] != f[j]
        {
          if i > 0 {
            assert f[i] == f'[i - 1] && f[j] == f'[j - 1];
          } else {
            assert ps[1..][j - 1].0 !in inv';
          }
        }
        forall i | 0 < i < |ps|
          ensures ps[i].0 !in inv
        {
          assert ps[1..][i - 1].0 !in inv';
        }
      }
      if NoDuplicates(f) && forall i :: 0 <= i < |ps| ==> ps[i].0 !in inv {
        forall i | 0 <= i < |ps[1..]|
          ensures ps[1..][i].0 !in inv'
        {
          assert f[0] != f[i + 1];
        }
        forall i, j | 0 <= i < j < |f'|
          ensures f'[i] != f'[j]
        {
          assert f[i + 1] != f[j + 1];
        }
      }
    }
  }

  /** On success the lookup holds the starting lookup plus every pair. */
  lemma {:induction false} InsertPairsContents(inv: map<string, string>, ps: seq<(string, string)>)
    requires InsertPairs(inv, ps).Ok?
    ensures forall e :: e in InsertPairs(inv, ps).value <==> e in inv || e in Firsts(ps)
    ensures forall p :: p in ps ==> p.0 in InsertPairs(inv, ps).value && InsertPairs(inv, ps).value[p.0] == p.1
    decreases |ps|
  {
    if |ps| > 0 {
      var inv' := inv[ps[0].0 := ps[0].1];
      var ps' := ps[1..];
      var r := InsertPairs(inv', ps').value;
      InsertPairsContents(inv', ps');
      InsertPairsKeepsStart(inv', ps');
      var f, f' := Firsts(ps), Firsts(ps');
      forall e ensures e in r <==> e in inv || e in f {
        if e in f' {
          var n :| 0 <= n < |f'| && f'[n] == e;
          assert f[n + 1] == e;
        }
        if e in f {
          var n :| 0 <= n < |f| && f[n] == e;
          if n > 0 {
            assert f'[n - 1] == e;
          }
        }
      }
      forall p | p in ps
        ensures p.0 in r && r[p.0] == p.1
      {
        if p != ps[0] {
          var n :| 0 <= n < |ps| && ps[n] == p;
          assert ps'[n - 1] == p;
        }
      }
    }
  }

  lemma {:induction false} InsertPairsKeepsStart(inv: map<string, string>, ps: seq<(string, string)>)
    requires InsertPairs(inv, ps).Ok?
    ensures forall e :: e in inv ==> e in InsertPairs(inv, ps).value && InsertPairs(inv, ps).value[e] == inv[e]
    decreases |ps|
  {
    if |ps| > 0 {
      InsertPairsKeepsStart(inv[ps[0].0 := ps[0].1], ps[1..]);
    }
  }

  /** On failure the error names the member at the first collision. */
  lemma {:induction false} InsertPairsErr(inv: map<string, string>, ps: seq<(string, string)>)
    requires InsertPairs(inv, ps).Err?
    ensures exists j :: Blocked(inv, Firsts(ps), j) && InsertPairs(inv, ps).error == DuplicateValue(Firsts(ps)[j])
    decreases |ps|
  {
    var f := Firsts(ps);
    if ps[0].0 in inv {
      assert Blocked(inv, f, 0);
    } else {
      var inv' := inv[ps[0].0 := ps[0].1];
      var f' := Firsts(ps[1..]);
      InsertPairsErr(inv', ps[1..]);
      var j' :| Blocked(inv', f', j') && InsertPairs(inv', ps[1..]).error == DuplicateValue(f'[j']);
      var j := j' + 1;
      assert f[j] == f'[j'];
      assert f[..j] == [f[0]] + f'[..j'];
      forall i | 0 <= i < j
        ensures f[i] !in inv
      {
        if i > 0 {
          assert f[i] == f'[i - 1];
        }
      }
      assert NoDuplicates(f[..j]) by {
        forall a, b | 0 <= a < b < j
          ensures f[..j][a] != f[..j][b]
        {
          if a == 0 {
            assert f'[b - 1] !in inv';
          } else {
            assert f[..j][a] == f'[..j'][a - 1] && f[..j][b] == f'[..j'][b - 1];
          }
        }
      }
      assert Blocked(inv, f, j);
    }
  }
}
