/** parse-cloudtrail.py: the recursive key/value search over CloudTrail events. What the
    script prints is returned as the list of printed dictionaries, in print order. */
module CloudTrail {
  import opened Wrappers

  /** A decoded JSON value; objects keep their members in order, with distinct keys as
      `json.loads` produces them. */
  datatype Json =
    | JNull
    | JBool(b: bool)
    | JNum(n: int)
    | JStr(s: string)
    | JList(items: seq<Json>)
    | JObj(members: seq<Member>)

  datatype Member = Member(key: string, value: Json)

  predicate HasKey(members: seq<Member>, key: string) {
    exists i :: 0 <= i < |members| && members[i].key == key
  }

  /** `d[key]`: the value of the member with that key. */
  function Lookup(members: seq<Member>, key: string): (v: Json)
    requires HasKey(members, key)
    ensures exists i :: 0 <= i < |members| && members[i].key == key && members[i].value == v
    decreases |members|
  {
    if members[0].key == key then members[0].value
    else
      assert members[1..][0].key == members[1].key;
      assert forall i :: 1 <= i < |members| ==> members[1..][i - 1] == members[i];
      Lookup(members[1..], key)
  }

  /** The value `recurse` answers True for: a dictionary holding `searchKey` with value `searchValue`. */
  predicate Matches(v: Json, searchKey: string, searchValue: string) {
    v.JObj? && HasKey(v.members, searchKey) && Lookup(v.members, searchKey) == JStr(searchValue)
  }

  /** What one call of `recurse` gives back (`True`, or the falsy `None`) and prints. */
  datatype Visit = Visit(matched: bool, printed: seq<Json>)

  /** `recurse`: a dictionary holding the key answers whether its value is the searched one and
      is not descended into; any other dictionary visits each value, printing itself once per
      value that answered True, and answers nothing; all other values, lists included, are
      ignored. */
  function Recurse(d: Json, searchKey: string, searchValue: string): (v: Visit)
    ensures v.matched <==> Matches(d, searchKey, searchValue)
    ensures d.JObj? && HasKey(d.members, searchKey) ==> v.printed == []
    ensures !d.JObj? ==> v.printed == []
    decreases d, if d.JObj? then |d.members| + 1 else 0
  {
    match d
    case JObj(members) =>
      if HasKey(members, searchKey) then Visit(Lookup(members, searchKey) == JStr(searchValue), [])
      else Visit(false, RecurseMembers(d, 0, searchKey, searchValue))
    case _ => Visit(false, [])
  }

  /** The `for k in d` loop of `recurse` from member `i` on: each value's own prints, then the
      dictionary itself when that value answered True. */
  function RecurseMembers(parent: Json, i: nat, searchKey: string, searchValue: string): seq<Json>
    requires parent.JObj? && i <= |parent.members|
    decreases parent, |parent.members| - i
  {
    if i == |parent.members| then []
    else
      var child := Recurse(parent.members[i].value, searchKey, searchValue);
      child.printed + (if child.matched then [parent] else []) + RecurseMembers(parent, i + 1, searchKey, searchValue)
  }

  /** `p` is `d`, or lies below `d` along a path of dictionaries that lack the key: the
      dictionaries `recurse` descends into. */
  predicate Reaches(d: Json, p: Json, searchKey: string)
    decreases d
  {
    p == d
    || (d.JObj? && !HasKey(d.members, searchKey)
        && exists i :: 0 <= i < |d.members| && Reaches(d.members[i].value, p, searchKey))
  }

  /** A dictionary that lacks the key and holds a matching dictionary as a direct value. */
  predicate ParentOfMatch(p: Json, searchKey: string, searchValue: string) {
    p.JObj? && !HasKey(p.members, searchKey)
    && exists i :: 0 <= i < |p.members| && Matches(p.members[i].value, searchKey, searchValue)
  }

  /** Exactly the dictionaries reachable through key-less dictionaries that directly hold a
      match are printed; in particular nothing holding the key itself, and no grandparent of a
      match for that reason alone. */
  lemma {:induction false} PrintedExactly(d: Json, p: Json, searchKey: string, searchValue: string)
    ensures p in Recurse(d, searchKey, searchValue).printed <==>
              Reaches(d, p, searchKey) && ParentOfMatch(p, searchKey, searchValue)
    decreases d, if d.JObj? then |d.members| + 1 else 0
  {
    if d.JObj? && !HasKey(d.members, searchKey) {
      PrintedExactlyMembers(d, 0, p, searchKey, searchValue);
      if p == d {
        if ParentOfMatch(p, searchKey, searchValue) {
          var i :| 0 <= i < |d.members| && Matches(d.members[i].value, searchKey, searchValue);
          assert Recurse(d.members[i].value, searchKey, searchValue).matched;
        }
      }
    }
  }

  lemma {:induction false} PrintedExactlyMembers(parent: Json, i: nat, p: Json, searchKey: string, searchValue: string)
    requires parent.JObj? && i <= |parent.members|
    ensures p in RecurseMembers(parent, i, searchKey, searchValue) <==>
              exists j :: i <= j < |parent.members| &&
                ((Reaches(parent.members[j].value, p, searchKey) && ParentOfMatch(p, searchKey, searchValue))
                 || (p == parent && Matches(parent.members[j].value, searchKey, searchValue)))
    decreases parent, |parent.members| - i
  {
    if i < |parent.members| {
      PrintedExactly(parent.members[i].value, p, searchKey, searchValue);
      PrintedExactlyMembers(parent, i + 1, p, searchKey, searchValue);
    }
  }

  /** A dictionary holding the searched key is never printed, whatever its value. */
  lemma HolderNeverPrinted(d: Json, p: Json, searchKey: string, searchValue: string)
    requires p.JObj? && HasKey(p.members, searchKey)
    ensures p !in Recurse(d, searchKey, searchValue).printed
  {
    PrintedExactly(d, p, searchKey, searchValue);
  }

  /** A match two levels down prints its parent only: {"a": {"b": {"k": "v"}}} prints
      {"b": {"k": "v"}} and not the outer dictionary. */
  lemma GrandparentNotPrinted()
    ensures var leaf := JObj([Member("k", JStr("v"))]);
            var mid := JObj([Member("b", leaf)]);
            var top := JObj([Member("a", mid)]);
            Recurse(top, "k", "v") == Visit(false, [mid])
  {
    var leaf := JObj([Member("k", JStr("v"))]);
    var mid := JObj([Member("b", leaf)]);
    var top := JObj([Member("a", mid)]);
    assert leaf.members[0].key == "k";
    assert HasKey(leaf.members, "k");
    assert !HasKey(mid.members, "k");
    assert !HasKey(top.members, "k");
    assert Recurse(leaf, "k", "v") == Visit(true, []);
    assert RecurseMembers(mid, 1, "k", "v") == [];
    assert Recurse(mid, "k", "v") == Visit(false, [mid]);
    assert RecurseMembers(top, 1, "k", "v") == [];
  }

  /** Number of dictionaries and values below them, counted through dictionaries only: the
      parts `recurse` can descend into. */
  function Size(d: Json): nat
    decreases d, if d.JObj? then |d.members| + 1 else 0
  {
    if d.JObj? then 1 + MembersSize(d, 0) else 0
  }

  function MembersSize(parent: Json, i: nat): nat
    requires parent.JObj? && i <= |parent.members|
    decreases parent, |parent.members| - i
  {
    if i == |parent.members| then 0 else Size(parent.members[i].value) + MembersSize(parent, i + 1)
  }

  lemma {:induction false} MemberSmaller(parent: Json, i: nat, j: nat)
    requires parent.JObj? && i <= j < |parent.members|
    ensures Size(parent.members[j].value) <= MembersSize(parent, i)
    decreases |parent.members| - i
  {
    if i < j {
      MemberSmaller(parent, i + 1, j);
    }
  }

  /** Whatever `recurse` reaches from `d` is no larger than `d`. */
  lemma {:induction false} ReachesSmaller(d: Json, p: Json, searchKey: string)
    ensures Reaches(d, p, searchKey) ==> Size(p) <= Size(d)
    decreases d
  {
    if Reaches(d, p, searchKey) && p != d {
      var i :| 0 <= i < |d.members| && Reaches(d.members[i].value, p, searchKey);
      ReachesSmaller(d.members[i].value, p, searchKey);
      MemberSmaller(d, 0, i);
    }
  }

  /** Number of members from the `i`-th on whose value is a match. */
  function MatchCount(parent: Json, i: nat, searchKey: string, searchValue: string): nat
    requires parent.JObj? && i <= |parent.members|
    decreases |parent.members| - i
  {
    if i == |parent.members| then 0
    else (if Matches(parent.members[i].value, searchKey, searchValue) then 1 else 0)
         + MatchCount(parent, i + 1, searchKey, searchValue)
  }

  /** A dictionary lacking the key is printed once per member value that matches, and never
      from below, since nothing it contains reaches it again. */
  lemma PrintCount(d: Json, searchKey: string, searchValue: string)
    requires d.JObj? && !HasKey(d.members, searchKey)
    ensures multiset(Recurse(d, searchKey, searchValue).printed)[d] == MatchCount(d, 0, searchKey, searchValue)
  {
    PrintCountMembers(d, 0, searchKey, searchValue);
  }

  /** A dictionary is not among what `recurse` prints for one of its own member values. */
  lemma NotPrintedBelow(parent: Json, i: nat, searchKey: string, searchValue: string)
    requires parent.JObj? && i < |parent.members|
    ensures parent !in Recurse(parent.members[i].value, searchKey, searchValue).printed
  {
    var value := parent.members[i].value;
    PrintedExactly(value, parent, searchKey, searchValue);
    ReachesSmaller(value, parent, searchKey);
    MemberSmaller(parent, 0, i);
  }

  lemma {:induction false} PrintCountMembers(parent: Json, i: nat, searchKey: string, searchValue: string)
    requires parent.JObj? && i <= |parent.members|
    ensures multiset(RecurseMembers(parent, i, searchKey, searchValue))[parent] == MatchCount(parent, i, searchKey, searchValue)
    decreases |parent.members| - i
  {
    if i < |parent.members| {
      var value := parent.members[i].value;
      var child := Recurse(value, searchKey, searchValue);
      NotPrintedBelow(parent, i, searchKey, searchValue);
      PrintCountMembers(parent, i + 1, searchKey, searchValue);
      var own := if child.matched then [parent] else [];
      assert RecurseMembers(parent, i, searchKey, searchValue)
             == child.printed + own + RecurseMembers(parent, i + 1, searchKey, searchValue);
      assert multiset(own)[parent] == if Matches(value, searchKey, searchValue) then 1 else 0;
    }
  }

  /** The events of one log file, or `None` when `data['Records']` raises. Iterating a
      dictionary or a string yields strings, which `recurse` ignores. */
  function RecordsOf(data: Json): (events: Option<seq<Json>>)
    ensures events.Some? <==>
              data.JObj? && HasKey(data.members, "Records")
              && !(Lookup(data.members, "Records").JNull? || Lookup(data.members, "Records").JBool?
                   || Lookup(data.members, "Records").JNum?)
    ensures data.JObj? && HasKey(data.members, "Records") && Lookup(data.members, "Records").JList? ==>
              events == Some(Lookup(data.members, "Records").items)
    ensures events.Some? && !Lookup(data.members, "Records").JList? ==> events.value == []
  {
    if data.JObj? && HasKey(data.members, "Records") then
      match Lookup(data.members, "Records")
      case JList(items) => Some(items)
      case JObj(_) => Some([])
      case JStr(_) => Some([])
      case _ => None
    else None
  }

  /** The inner loop of `process_files`: `recurse` on each event in order, its answer dropped. */
  function ScanEvents(events: seq<Json>, searchKey: string, searchValue: string): seq<Json>
    decreases |events|
  {
    if events == [] then []
    else Recurse(events[0], searchKey, searchValue).printed + ScanEvents(events[1..], searchKey, searchValue)
  }

  /** What scanning the decoded log files prints, and whether an exception ended the run
      (which the script's top level catches, skipping the remaining files). */
  datatype Scan = Scan(printed: seq<Json>, aborted: bool)

  /** `process_files` over the decoded contents of the files, in `get_files` order. */
  function ProcessFiles(files: seq<Json>, searchKey: string, searchValue: string): (r: Scan)
    ensures r.aborted <==> exists f :: 0 <= f < |files| && RecordsOf(files[f]).None?
    ensures forall p :: p in r.printed ==> ParentOfMatch(p, searchKey, searchValue)
    decreases |files|
  {
    if files == [] then Scan([], false)
    else
      match RecordsOf(files[0])
      case None => Scan([], true)
      case Some(events) =>
        var rest := ProcessFiles(files[1..], searchKey, searchValue);
        assert forall f :: 1 <= f < |files| ==> files[1..][f - 1] == files[f];
        assert forall p :: p in ScanEvents(events, searchKey, searchValue) ==> ParentOfMatch(p, searchKey, searchValue) by {
          forall p | p in ScanEvents(events, searchKey, searchValue) ensures ParentOfMatch(p, searchKey, searchValue) {
            ScanEventsPrinted(events, p, searchKey, searchValue);
          }
        }
        Scan(ScanEvents(events, searchKey, searchValue) + rest.printed, rest.aborted)
  }

  /** A printed dictionary is one that `recurse`, started on some event, reaches and that
      directly holds a match; so an event that itself matches is never printed. */
  lemma {:induction false} ScanEventsPrinted(events: seq<Json>, p: Json, searchKey: string, searchValue: string)
    ensures p in ScanEvents(events, searchKey, searchValue) <==>
              ParentOfMatch(p, searchKey, searchValue)
              && exists e :: 0 <= e < |events| && Reaches(events[e], p, searchKey)
    decreases |events|
  {
    if events != [] {
      PrintedExactly(events[0], p, searchKey, searchValue);
      ScanEventsPrinted(events[1..], p, searchKey, searchValue);
      if exists e :: 0 <= e < |events| && Reaches(events[e], p, searchKey) {
        var e :| 0 <= e < |events| && Reaches(events[e], p, searchKey);
        if e > 0 {
          assert events[1..][e - 1] == events[e];
        }
      }
      if exists e :: 0 <= e < |events[1..]| && Reaches(events[1..][e], p, searchKey) {
        var e :| 0 <= e < |events[1..]| && Reaches(events[1..][e], p, searchKey);
        assert events[e + 1] == events[1..][e];
      }
    }
  }

  /** Every file up to and including file `f` has iterable `Records`, so `process_files` scans
      file `f`. */
  predicate ScannedUpTo(files: seq<Json>, f: int) {
    0 <= f < |files| && forall g :: 0 <= g <= f ==> RecordsOf(files[g]).Some?
  }

  /** `recurse`, started on some event of the file, reaches `p`. */
  predicate FileReaches(file: Json, p: Json, searchKey: string) {
    RecordsOf(file).Some?
    && exists e :: 0 <= e < |RecordsOf(file).value| && Reaches(RecordsOf(file).value[e], p, searchKey)
  }

  /** Exactly the direct parents of matches reached from the events of the files scanned before
      the first file without iterable `Records` are printed; later files are never read. */
  lemma {:induction false} ProcessFilesPrinted(files: seq<Json>, p: Json, searchKey: string, searchValue: string)
    ensures p in ProcessFiles(files, searchKey, searchValue).printed <==>
              ParentOfMatch(p, searchKey, searchValue)
              && exists f :: ScannedUpTo(files, f) && FileReaches(files[f], p, searchKey)
    decreases |files|
  {
    if files != [] {
      var rest := files[1..];
      forall f | ScannedUpTo(files, f) && f > 0
        ensures ScannedUpTo(rest, f - 1) && rest[f - 1] == files[f]
      {
        forall g | 0 <= g <= f - 1 ensures RecordsOf(rest[g]).Some? {
          assert rest[g] == files[g + 1];
        }
      }
      match RecordsOf(files[0]) {
        case None =>
          assert forall f :: !ScannedUpTo(files, f);
        case Some(events) =>
          ProcessFilesPrinted(rest, p, searchKey, searchValue);
          ScanEventsPrinted(events, p, searchKey, searchValue);
          assert ScannedUpTo(files, 0);
          forall f | ScannedUpTo(rest, f)
            ensures ScannedUpTo(files, f + 1) && files[f + 1] == rest[f]
          {
            forall g | 0 <= g <= f + 1 ensures RecordsOf(files[g]).Some? {
              if g > 0 {
                assert files[g] == rest[g - 1];
              }
            }
          }
      }
    }
  }

  /** An event that matches by itself is never among the printed dictionaries. */
  lemma MatchingEventNotPrinted(events: seq<Json>, e: nat, searchKey: string, searchValue: string)
    requires e < |events| && Matches(events[e], searchKey, searchValue)
    ensures events[e] !in ScanEvents(events, searchKey, searchValue)
  {
    ScanEventsPrinted(events, events[e], searchKey, searchValue);
  }
}
