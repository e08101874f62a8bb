/** Building the snapshot of the active workspace's windows from the two query responses
    (src/window/fetch.rs): the workspace's id and focused window, the clients on that
    workspace, each validated into a `WindowData`, stably ordered by group index. */
module Fetch {
  import opened Wrappers
  import opened Errors
  import opened Json
  import opened Window

  // ---------------------------------------------------------------------------------------
  // Filtering the client list

  /** The client entry's `workspace.id` is a 64-bit integer equal to `id`. */
  predicate OnWorkspace(entry: Value, id: int)
    ensures OnWorkspace(entry, id) ==> I64_MIN <= id <= I64_MAX
    ensures OnWorkspace(entry, id) <==>
      && entry.Object? && "workspace" in entry.fields
      && entry.fields["workspace"].Object? && "id" in entry.fields["workspace"].fields
      && entry.fields["workspace"].fields["id"] == Int(id)
      && I64_MIN <= id <= I64_MAX
  {
    AsI64(Index(Index(entry, "workspace"), "id")) == Some(id)
  }

  /** The entries on workspace `id`, in their original order; entries whose workspace id is
      missing or not an integer are dropped like those of other workspaces. */
  function OnActiveWorkspace(clients: seq<Value>, id: int): (r: seq<Value>)
    ensures forall i :: 0 <= i < |r| ==> OnWorkspace(r[i], id)
  {
    if clients == [] then []
    else (if OnWorkspace(clients[0], id) then [clients[0]] else []) + OnActiveWorkspace(clients[1..], id)
  }

  /** Every entry on the workspace is kept, as often as it occurs; no other entry is. */
  lemma {:induction false} OnActiveWorkspaceCounts(clients: seq<Value>, id: int, e: Value)
    ensures multiset(OnActiveWorkspace(clients, id))[e]
         == if OnWorkspace(e, id) then multiset(clients)[e] else 0
  {
    if clients != [] {
      assert clients == [clients[0]] + clients[1..];
      OnActiveWorkspaceCounts(clients[1..], id, e);
    }
  }

  /** Filtering distributes over concatenation: the retained entries keep their order. */
  lemma {:induction false} OnActiveWorkspaceConcat(a: seq<Value>, b: seq<Value>, id: int)
    ensures OnActiveWorkspace(a + b, id) == OnActiveWorkspace(a, id) + OnActiveWorkspace(b, id)
  {
    if a == [] {
      assert a + b == b;
    } else {
      assert (a + b)[0] == a[0];
      assert (a + b)[1..] == a[1..] + b;
      OnActiveWorkspaceConcat(a[1..], b, id);
    }
  }

  // ---------------------------------------------------------------------------------------
  // Validating the batch

  /** `map(from_json_data)` collected into a `Result<Vec<_>>`: all windows, in entry order,
      or the error of the first entry that fails; never a partial list. */
  function ParseWindows(entries: seq<Value>, activeWindowAddress: string): (r: Result<seq<WindowData>, Error>)
    ensures r.Success? <==>
      forall i :: 0 <= i < |entries| ==> FromJsonData(entries[i], activeWindowAddress).Success?
    ensures r.Success? ==>
      && |r.value| == |entries|
      && forall i :: 0 <= i < |entries| ==> FromJsonData(entries[i], activeWindowAddress) == Success(r.value[i])
  {
    if entries == [] then Success([])
    else
      match FromJsonData(entries[0], activeWindowAddress)
      case Failure(e) => Failure(e)
      case Success(w) =>
        match ParseWindows(entries[1..], activeWindowAddress)
        case Failure(e) =>
          assert !FromJsonData(entries[1..][FirstFailure(entries[1..], activeWindowAddress)], activeWindowAddress).Success?;
          Failure(e)
        case Success(rest) =>
          var windows := [w] + rest;
          assert forall i :: 0 <= i < |entries| ==>
            FromJsonData(entries[i], activeWindowAddress) == Success(windows[i]) by {
            forall i | 0 <= i < |entries|
              ensures FromJsonData(entries[i], activeWindowAddress) == Success(windows[i])
            {
              if i > 0 {
                assert entries[i] == entries[1..][i - 1] && windows[i] == rest[i - 1];
              }
            }
          }
          Success(windows)
  }

  /** The index of the first entry that fails validation, or the length when none does. */
  function FirstFailure(entries: seq<Value>, activeWindowAddress: string): (k: nat)
    ensures k <= |entries|
    ensures forall j :: 0 <= j < k ==> FromJsonData(entries[j], activeWindowAddress).Success?
    ensures k < |entries| ==> FromJsonData(entries[k], activeWindowAddress).Failure?
  {
    if entries == [] then 0
    else if FromJsonData(entries[0], activeWindowAddress).Failure? then 0
    else
      var k := FirstFailure(entries[1..], activeWindowAddress);
      AcceptedPrefixShift(entries, activeWindowAddress, k);
      k + 1
  }

  /** An accepted first entry followed by `k` accepted entries of the rest gives `k + 1`
      accepted entries, and the rest's entry `k` is entry `k + 1`. */
  lemma AcceptedPrefixShift(entries: seq<Value>, activeWindowAddress: string, k: nat)
    requires entries != [] && k <= |entries| - 1
    requires FromJsonData(entries[0], activeWindowAddress).Success?
    requires forall j :: 0 <= j < k ==> FromJsonData(entries[1..][j], activeWindowAddress).Success?
    ensures forall j :: 0 <= j < k + 1 ==> FromJsonData(entries[j], activeWindowAddress).Success?
    ensures k < |entries| - 1 ==> entries[k + 1] == entries[1..][k]
  {
    forall j | 0 < j < k + 1 ensures FromJsonData(entries[j], activeWindowAddress).Success? {
      assert entries[j] == entries[1..][j - 1];
    }
  }

  /** A failed batch reports the error of its first failing entry. */
  lemma {:induction false} ParseWindowsFirstError(entries: seq<Value>, activeWindowAddress: string)
    requires ParseWindows(entries, activeWindowAddress).Failure?
    ensures var i := FirstFailure(entries, activeWindowAddress);
      && i < |entries|
      && FromJsonData(entries[i], activeWindowAddress) == Failure(ParseWindows(entries, activeWindowAddress).error)
  {
    if FromJsonData(entries[0], activeWindowAddress).Success? {
      ParseWindowsFirstError(entries[1..], activeWindowAddress);
    }
  }

  // ---------------------------------------------------------------------------------------
  // Stable ordering by group index

  predicate SortedByGroup(s: seq<WindowData>) {
    forall i, j :: 0 <= i < j < |s| ==> s[i].groupIndex <= s[j].groupIndex
  }

  /** The windows of `s` whose group index is `k`, in their order in `s`. */
  function WithGroupIndex(s: seq<WindowData>, k: nat): seq<WindowData> {
    if s == [] then []
    else WithGroupIndex(s[..|s| - 1], k) + (if s[|s| - 1].groupIndex == k then [s[|s| - 1]] else [])
  }

  /** Only windows of `s` with group index `k` are listed. */
  lemma WithGroupIndexFrom(s: seq<WindowData>, k: nat)
    ensures multiset(WithGroupIndex(s, k)) <= multiset(s)
    ensures forall i :: 0 <= i < |WithGroupIndex(s, k)| ==> WithGroupIndex(s, k)[i].groupIndex == k
  {
    WithGroupIndexSubset(s, k);
    WithGroupIndexMatches(s, k);
  }

  lemma {:induction false} WithGroupIndexSubset(s: seq<WindowData>, k: nat)
    ensures multiset(WithGroupIndex(s, k)) <= multiset(s)
  {
    if s != [] {
      var init, last := s[..|s| - 1], s[|s| - 1];
      WithGroupIndexSubset(init, k);
      assert multiset(s) == multiset(init) + multiset{last} by {
        assert s == init + [last];
      }
    }
  }

  lemma {:induction false} WithGroupIndexMatches(s: seq<WindowData>, k: nat)
    ensures forall i :: 0 <= i < |WithGroupIndex(s, k)| ==> WithGroupIndex(s, k)[i].groupIndex == k
  {
    if s != [] {
      var init, last := s[..|s| - 1], s[|s| - 1];
      var tail: seq<WindowData> := if last.groupIndex == k then [last] else [];
      WithGroupIndexMatches(init, k);
      var listed := WithGroupIndex(init, k);
      assert WithGroupIndex(s, k) == listed + tail;
      forall i | 0 <= i < |listed + tail| ensures (listed + tail)[i].groupIndex == k {
        if i < |listed| {
          assert (listed + tail)[i] == listed[i];
        }
      }
    }
  }

  /** `r` lists the windows of every group index in the same order as `s` does: what a
      stable sort keeps of its input. */
  ghost predicate KeepsTieOrder(s: seq<WindowData>, r: seq<WindowData>) {
    forall k: nat :: WithGroupIndex(r, k) == WithGroupIndex(s, k)
  }

  /** Insert `x` after the last window whose group index is not larger than its own. */
  function InsertByGroup(x: WindowData, s: seq<WindowData>): (r: seq<WindowData>)
    ensures |r| == |s| + 1
    ensures s == [] || s[|s| - 1].groupIndex <= x.groupIndex ==> r[|s|] == x
    ensures s != [] && s[|s| - 1].groupIndex > x.groupIndex ==> r[|s|] == s[|s| - 1]
    decreases |s|
  {
    if s == [] || s[|s| - 1].groupIndex <= x.groupIndex then s + [x]
    else InsertByGroup(x, s[..|s| - 1]) + [s[|s| - 1]]
  }

  /** The stable sort by group index, by insertion from the left. */
  function StableSortByGroup(s: seq<WindowData>): (r: seq<WindowData>)
    ensures |r| == |s|
  {
    if s == [] then [] else InsertByGroup(s[|s| - 1], StableSortByGroup(s[..|s| - 1]))
  }

  lemma WithGroupIndexAppend(s: seq<WindowData>, x: WindowData, k: nat)
    ensures WithGroupIndex(s + [x], k) == WithGroupIndex(s, k) + (if x.groupIndex == k then [x] else [])
  {
    assert (s + [x])[..|s + [x]| - 1] == s;
  }

  /** Insertion adds `x` and keeps every other window. */
  lemma {:induction false} InsertByGroupElements(x: WindowData, s: seq<WindowData>)
    ensures |InsertByGroup(x, s)| == |s| + 1
    ensures multiset(InsertByGroup(x, s)) == multiset(s) + multiset{x}
    decreases |s|
  {
    if s != [] && s[|s| - 1].groupIndex > x.groupIndex {
      var init, last := s[..|s| - 1], s[|s| - 1];
      assert s == init + [last];
      InsertByGroupElements(x, init);
    }
  }

  lemma {:induction false} InsertByGroupSorted(x: WindowData, s: seq<WindowData>)
    requires SortedByGroup(s)
    ensures SortedByGroup(InsertByGroup(x, s))
    decreases |s|
  {
    if s != [] && s[|s| - 1].groupIndex > x.groupIndex {
      var init, last := s[..|s| - 1], s[|s| - 1];
      InsertByGroupSorted(x, init);
      InsertByGroupElements(x, init);
      var r := InsertByGroup(x, init);
      forall i | 0 <= i < |r| ensures r[i].groupIndex <= last.groupIndex {
        assert r[i] in multiset(r);
        if r[i] != x {
          assert r[i] in init;
        }
      }
    }
  }

  lemma {:induction false} InsertByGroupTies(x: WindowData, s: seq<WindowData>, k: nat)
    ensures WithGroupIndex(InsertByGroup(x, s), k)
         == WithGroupIndex(s, k) + (if x.groupIndex == k then [x] else [])
    decreases |s|
  {
    if s == [] || s[|s| - 1].groupIndex <= x.groupIndex {
      WithGroupIndexAppend(s, x, k);
    } else {
      var init, last := s[..|s| - 1], s[|s| - 1];
      InsertByGroupTies(x, init, k);
      WithGroupIndexAppend(InsertByGroup(x, init), last, k);
    }
  }

  /** The stable sort orders by group index, is a permutation of its input, and keeps the
      input order among windows of equal group index (several unranked windows included). */
  lemma {:induction false} StableSortByGroupCorrect(s: seq<WindowData>)
    ensures SortedByGroup(StableSortByGroup(s))
    ensures multiset(StableSortByGroup(s)) == multiset(s)
    ensures KeepsTieOrder(s, StableSortByGroup(s))
  {
    if s != [] {
      var init, last := s[..|s| - 1], s[|s| - 1];
      assert s == init + [last];
      StableSortByGroupCorrect(init);
      InsertByGroupSorted(last, StableSortByGroup(init));
      InsertByGroupElements(last, StableSortByGroup(init));
      forall k: nat ensures WithGroupIndex(StableSortByGroup(s), k) == WithGroupIndex(s, k) {
        InsertByGroupTies(last, StableSortByGroup(init), k);
        WithGroupIndexAppend(init, last, k);
      }
    }
  }

  /** Two orderings of the same windows that are both sorted by group index and agree on the
      order within every group index are the same sequence. */
  lemma {:induction false} SortedTiesDetermine(a: seq<WindowData>, b: seq<WindowData>)
    requires SortedByGroup(a) && SortedByGroup(b)
    requires forall k: nat :: WithGroupIndex(a, k) == WithGroupIndex(b, k)
    ensures a == b
    decreases |a|
  {
    if a == [] {
      if b != [] {
        WithGroupIndexLast(b);
        assert false;
      }
    } else if b == [] {
      WithGroupIndexLast(a);
      assert false;
    } else {
      var a', x, b', y := a[..|a| - 1], a[|a| - 1], b[..|b| - 1], b[|b| - 1];
      WithGroupIndexLast(a);
      WithGroupIndexLast(b);
      MaxGroupIndex(a, y.groupIndex);
      MaxGroupIndex(b, x.groupIndex);
      assert a == a' + [x] && b == b' + [y];
      SameLastDropped(a', x, b', y);
      SortedDropLast(a);
      SortedDropLast(b);
      SortedTiesDetermine(a', b');
    }
  }

  lemma SortedDropLast(s: seq<WindowData>)
    requires SortedByGroup(s) && s != []
    ensures SortedByGroup(s[..|s| - 1])
  {
    assert forall i :: 0 <= i < |s| - 1 ==> s[..|s| - 1][i] == s[i];
  }

  /** The last window is listed last among those of its group index. */
  lemma WithGroupIndexLast(s: seq<WindowData>)
    requires s != []
    ensures WithGroupIndex(s, s[|s| - 1].groupIndex)
         == WithGroupIndex(s[..|s| - 1], s[|s| - 1].groupIndex) + [s[|s| - 1]]
  {
  }

  /** Two sequences ending in windows of the same group index that agree on the order within
      every group index end in the same window, and still agree once it is dropped. */
  lemma SameLastDropped(a: seq<WindowData>, x: WindowData, b: seq<WindowData>, y: WindowData)
    requires x.groupIndex == y.groupIndex
    requires forall k: nat :: WithGroupIndex(a + [x], k) == WithGroupIndex(b + [y], k)
    ensures x == y
    ensures forall k: nat :: WithGroupIndex(a, k) == WithGroupIndex(b, k)
  {
    var top := x.groupIndex;
    WithGroupIndexAppend(a, x, top);
    WithGroupIndexAppend(b, y, top);
    assert x == y by {
      var ta := WithGroupIndex(a, top) + [x];
      var tb := WithGroupIndex(b, top) + [y];
      assert ta == WithGroupIndex(a + [x], top) == WithGroupIndex(b + [y], top) == tb;
      assert ta[|ta| - 1] == x && tb[|tb| - 1] == y;
    }
    forall k: nat ensures WithGroupIndex(a, k) == WithGroupIndex(b, k) {
      WithGroupIndexAppend(a, x, k);
      WithGroupIndexAppend(b, y, k);
      assert WithGroupIndex(a + [x], k) == WithGroupIndex(b + [y], k);
      if k == top {
        var ta := WithGroupIndex(a, k) + [x];
        var tb := WithGroupIndex(b, k) + [y];
        assert ta[..|ta| - 1] == WithGroupIndex(a, k);
        assert tb[..|tb| - 1] == WithGroupIndex(b, k);
      } else {
        assert WithGroupIndex(a, k) + [] == WithGroupIndex(a, k);
        assert WithGroupIndex(b, k) + [] == WithGroupIndex(b, k);
      }
    }
  }

  /** In a sorted sequence no group index that occurs exceeds that of the last window. */
  lemma MaxGroupIndex(s: seq<WindowData>, k: nat)
    requires SortedByGroup(s) && WithGroupIndex(s, k) != []
    ensures s != [] && k <= s[|s| - 1].groupIndex
  {
    var r := WithGroupIndex(s, k);
    WithGroupIndexFrom(s, k);
    assert r[0] in multiset(s);
    var i :| 0 <= i < |s| && s[i] == r[0];
  }

  /** Any ordering that is sorted by group index and keeps ties in input order, such as the
      result of the standard library's stable `sort_by`, is `StableSortByGroup`. */
  lemma StableSortByGroupUnique(s: seq<WindowData>, r: seq<WindowData>)
    requires SortedByGroup(r) && KeepsTieOrder(s, r)
    ensures r == StableSortByGroup(s)
  {
    StableSortByGroupCorrect(s);
    SortedTiesDetermine(r, StableSortByGroup(s));
  }

  /** Inserting where the shifting loop stops: every window after position `j` has a larger
      group index than `x`, the one before it (if any) does not. */
  lemma {:induction false} InsertByGroupAt(x: WindowData, p: seq<WindowData>, j: nat)
    requires j <= |p|
    requires j == 0 || p[j - 1].groupIndex <= x.groupIndex
    requires forall k :: j <= k < |p| ==> p[k].groupIndex > x.groupIndex
    ensures InsertByGroup(x, p) == p[..j] + [x] + p[j..]
    decreases |p|
  {
    if j < |p| {
      var init := p[..|p| - 1];
      InsertByGroupAt(x, init, j);
      assert init[..j] == p[..j] && init[j..] + [p[|p| - 1]] == p[j..];
    } else {
      assert p[..j] == p;
    }
  }

  /** `windows.sort_by(|w1, w2| w1.group_index.cmp(&w2.group_index))`, in place: insertion
      sort, each window in turn shifted left past the windows of a strictly larger group
      index. */
  method SortByGroupIndex(a: array<WindowData>)
    modifies a
    ensures a[..] == StableSortByGroup(old(a[..]))
  {
    ghost var s := a[..];
    var i := 0;
    while i < a.Length
      invariant 0 <= i <= a.Length
      invariant a[..i] == StableSortByGroup(s[..i])
      invariant a[i..] == s[i..]
    {
      ghost var before := a[..];
      InsertIntoSortedPrefix(a, i);
      assert s[..i + 1] == s[..i] + [s[i]];
      assert before[i..][1..] == before[i + 1..];
      i := i + 1;
    }
    assert s[..a.Length] == s;
  }

  /** One insertion step: `a[i]` moves into the prefix `a[..i]` where `InsertByGroup` puts
      it; the rest of the array is untouched. */
  method InsertIntoSortedPrefix(a: array<WindowData>, i: nat)
    requires i < a.Length
    modifies a
    ensures a[..i + 1] == InsertByGroup(old(a[i]), old(a[..i]))
    ensures a[i + 1..] == old(a[i + 1..])
  {
    var x := a[i];
    ghost var p := a[..i];
    var j := i;
    while j > 0 && a[j - 1].groupIndex > x.groupIndex
      invariant 0 <= j <= i
      invariant forall k :: 0 <= k < j ==> a[k] == p[k]
      invariant forall k :: j < k <= i ==> a[k] == p[k - 1]
      invariant forall k :: j <= k < i ==> p[k].groupIndex > x.groupIndex
      invariant forall k :: i < k < a.Length ==> a[k] == old(a[k])
    {
      a[j] := a[j - 1];
      j := j - 1;
    }
    a[j] := x;
    InsertByGroupShifted(a[..i + 1], x, p, j);
  }

  /** What the shifting loop leaves behind: the prefix up to `j`, then `x`, then the rest of
      the prefix moved one place right, is the insertion of `x`. */
  lemma InsertByGroupShifted(r: seq<WindowData>, x: WindowData, p: seq<WindowData>, j: nat)
    requires j <= |p| && |r| == |p| + 1
    requires j == 0 || p[j - 1].groupIndex <= x.groupIndex
    requires forall k :: j <= k < |p| ==> p[k].groupIndex > x.groupIndex
    requires forall k :: 0 <= k < j ==> r[k] == p[k]
    requires r[j] == x
    requires forall k :: j < k < |r| ==> r[k] == p[k - 1]
    ensures r == InsertByGroup(x, p)
  {
    InsertByGroupAt(x, p, j);
    var q := p[..j] + [x] + p[j..];
    forall k | 0 <= k < |r| ensures r[k] == q[k] {
      if k > j { assert q[k] == p[k - 1]; }
    }
  }

  // ---------------------------------------------------------------------------------------
  // The focused window

  /** The number of windows marked active. */
  function ActiveCount(s: seq<WindowData>): (n: nat)
    ensures n <= |s|
  {
    if s == [] then 0
    else ActiveCount(s[..|s| - 1]) + (if s[|s| - 1].active then 1 else 0)
  }

  predicate SomeActive(s: seq<WindowData>) {
    exists i :: 0 <= i < |s| && s[i].active
  }

  predicate NoTwoActive(s: seq<WindowData>) {
    forall i, j :: 0 <= i < j < |s| ==> !(s[i].active && s[j].active)
  }

  /** No window is counted exactly when none is active. */
  lemma {:induction false} ActiveCountZero(s: seq<WindowData>)
    ensures ActiveCount(s) == 0 <==> !SomeActive(s)
  {
    if s != [] {
      var init := s[..|s| - 1];
      ActiveCountZero(init);
      if SomeActive(init) {
        var i :| 0 <= i < |init| && init[i].active;
        assert s[i].active;
      }
      if SomeActive(s) && !s[|s| - 1].active {
        var i :| 0 <= i < |s| && s[i].active;
        assert init[i].active;
      }
    }
  }

  /** At most one window is counted exactly when no two are active. */
  lemma {:induction false} ActiveCountAtMostOne(s: seq<WindowData>)
    ensures ActiveCount(s) <= 1 <==> NoTwoActive(s)
  {
    if s != [] {
      var init, n := s[..|s| - 1], |s| - 1;
      ActiveCountAtMostOne(init);
      ActiveCountZero(init);
      if NoTwoActive(s) {
        assert NoTwoActive(init) by {
          forall i, j | 0 <= i < j < |init| ensures !(init[i].active && init[j].active) {
            assert init[i] == s[i] && init[j] == s[j];
          }
        }
      }
      if ActiveCount(s) <= 1 {
        forall i, j | 0 <= i < j < |s| ensures !(s[i].active && s[j].active) {
          if j < n {
            assert s[i] == init[i] && s[j] == init[j];
          } else if s[n].active {
            assert !init[i].active;
          }
        }
      }
    }
  }

  lemma ActiveCountAppend(s: seq<WindowData>, x: WindowData)
    ensures ActiveCount(s + [x]) == ActiveCount(s) + (if x.active then 1 else 0)
  {
    assert (s + [x])[..|s|] == s;
  }

  /** Inserting a window adds its own mark to the count. */
  lemma {:induction false} InsertByGroupActive(x: WindowData, s: seq<WindowData>)
    ensures ActiveCount(InsertByGroup(x, s)) == ActiveCount(s) + (if x.active then 1 else 0)
    decreases |s|
  {
    if s == [] || s[|s| - 1].groupIndex <= x.groupIndex {
      ActiveCountAppend(s, x);
    } else {
      var init, last := s[..|s| - 1], s[|s| - 1];
      InsertByGroupActive(x, init);
      ActiveCountAppend(InsertByGroup(x, init), last);
    }
  }

  /** Sorting keeps the number of active windows. */
  lemma {:induction false} StableSortByGroupActive(s: seq<WindowData>)
    ensures ActiveCount(StableSortByGroup(s)) == ActiveCount(s)
  {
    if s != [] {
      StableSortByGroupActive(s[..|s| - 1]);
      InsertByGroupActive(s[|s| - 1], StableSortByGroup(s[..|s| - 1]));
    }
  }

  // ---------------------------------------------------------------------------------------
  // The whole fetch

  /** `fetch_active_windows_data`, given the two query responses (each a JSON document or the
      error of running the query). The client list is only looked at once the workspace
      response has yielded an id and a focused window address. */
  function FetchActiveWindows(workspaceResponse: Result<Value, Error>, clientsResponse: Result<Value, Error>)
    : (r: Result<seq<WindowData>, Error>)
    ensures workspaceResponse.Failure? ==> r == Failure(workspaceResponse.error)
    ensures workspaceResponse.Success? && AsI64(Index(workspaceResponse.value, "id")).None? ==>
      r == Failure(DataFetch("Cannot get id from workspace data"))
    ensures (workspaceResponse.Success? && AsI64(Index(workspaceResponse.value, "id")).Some?
             && !Index(workspaceResponse.value, "lastwindow").Str?) ==>
      r == Failure(DataFetch("Cannot get active window address from workspace data"))
    ensures (workspaceResponse.Success? && AsI64(Index(workspaceResponse.value, "id")).Some?
             && Index(workspaceResponse.value, "lastwindow").Str? && clientsResponse.Failure?) ==>
      r == Failure(clientsResponse.error)
    ensures (workspaceResponse.Success? && AsI64(Index(workspaceResponse.value, "id")).Some?
             && Index(workspaceResponse.value, "lastwindow").Str? && clientsResponse.Success?
             && !clientsResponse.value.Array?) ==>
      r == Failure(DataFetch("Cannot convert hyprctl clients output as array"))
  {
    match workspaceResponse
    case Failure(e) => Failure(e)
    case Success(workspace) =>
      match AsI64(Index(workspace, "id"))
      case None => Failure(DataFetch("Cannot get id from workspace data"))
      case Some(id) =>
        match AsStr(Index(workspace, "lastwindow"))
        case None => Failure(DataFetch("Cannot get active window address from workspace data"))
        case Some(activeWindowAddress) =>
          match clientsResponse
          case Failure(e) => Failure(e)
          case Success(clients) =>
            match AsArray(clients)
            case None => Failure(DataFetch("Cannot convert hyprctl clients output as array"))
            case Some(entries) =>
              match ParseWindows(OnActiveWorkspace(entries, id), activeWindowAddress)
              case Failure(e) => Failure(e)
              case Success(windows) => Success(StableSortByGroup(windows))
  }

  /** Once both responses have the expected shape, the outcome is that of validating the
      entries on the active workspace, sorted when they all pass. */
  lemma FetchActiveWindowsParses(workspace: Value, clients: Value)
    requires AsI64(Index(workspace, "id")).Some? && Index(workspace, "lastwindow").Str?
    requires clients.Array?
    ensures
      var parsed := ParseWindows(OnActiveWorkspace(clients.items, Index(workspace, "id").i),
                                 Index(workspace, "lastwindow").s);
      FetchActiveWindows(Success(workspace), Success(clients))
        == if parsed.Success? then Success(StableSortByGroup(parsed.value)) else Failure(parsed.error)
  {
  }

  /** A fetch whose responses have the expected shape fails exactly when some entry on the
      active workspace fails validation, and then with the error of the first such entry. */
  lemma FetchActiveWindowsFailure(workspace: Value, clients: Value)
    requires AsI64(Index(workspace, "id")).Some? && Index(workspace, "lastwindow").Str?
    requires clients.Array?
    ensures
      var activeWindowAddress := Index(workspace, "lastwindow").s;
      var retained := OnActiveWorkspace(clients.items, Index(workspace, "id").i);
      var r := FetchActiveWindows(Success(workspace), Success(clients));
      && (r.Success? <==>
            forall i :: 0 <= i < |retained| ==> FromJsonData(retained[i], activeWindowAddress).Success?)
      && (r.Failure? ==>
            var i := FirstFailure(retained, activeWindowAddress);
            && i < |retained|
            && FromJsonData(retained[i], activeWindowAddress) == Failure(r.error)
            && forall j :: 0 <= j < i ==> FromJsonData(retained[j], activeWindowAddress).Success?)
  {
    var retained := OnActiveWorkspace(clients.items, Index(workspace, "id").i);
    var activeWindowAddress := Index(workspace, "lastwindow").s;
    FetchActiveWindowsParses(workspace, clients);
    if ParseWindows(retained, activeWindowAddress).Failure? {
      ParseWindowsFirstError(retained, activeWindowAddress);
    }
  }

  /** A successful fetch yields the windows of all entries on the active workspace, sorted by
      group index, ties in client-list order. */
  lemma FetchActiveWindowsSuccess(workspace: Value, clients: Value)
    requires AsI64(Index(workspace, "id")).Some? && Index(workspace, "lastwindow").Str?
    requires clients.Array?
    requires FetchActiveWindows(Success(workspace), Success(clients)).Success?
    ensures
      var activeWindowAddress := Index(workspace, "lastwindow").s;
      var retained := OnActiveWorkspace(clients.items, Index(workspace, "id").i);
      var r := FetchActiveWindows(Success(workspace), Success(clients)).value;
      && |r| == |retained|
      && SortedByGroup(r)
      && exists windows ::
           && |windows| == |retained|
           && (forall i :: 0 <= i < |retained| ==>
                 FromJsonData(retained[i], activeWindowAddress) == Success(windows[i]))
           && multiset(r) == multiset(windows)
           && KeepsTieOrder(windows, r)
  {
    var retained := OnActiveWorkspace(clients.items, Index(workspace, "id").i);
    var activeWindowAddress := Index(workspace, "lastwindow").s;
    FetchActiveWindowsParses(workspace, clients);
    var windows := ParseWindows(retained, activeWindowAddress).value;
    StableSortByGroupCorrect(windows);
    assert |StableSortByGroup(windows)| == |windows| by {
      assert |multiset(StableSortByGroup(windows))| == |multiset(windows)|;
    }
  }

  /** The entries' `address` fields are pairwise different, as the compositor's window
      addresses are. */
  predicate DistinctAddresses(entries: seq<Value>) {
    forall i, j :: 0 <= i < j < |entries| ==> Index(entries[i], "address") != Index(entries[j], "address")
  }

  /** In a validated batch, a window is active exactly when its entry's address is the
      focused one. */
  lemma ParsedActive(entries: seq<Value>, activeWindowAddress: string)
    requires ParseWindows(entries, activeWindowAddress).Success?
    ensures var windows := ParseWindows(entries, activeWindowAddress).value;
      forall i :: 0 <= i < |entries| ==>
        (windows[i].active <==> Index(entries[i], "address") == Str(activeWindowAddress))
  {
    var windows := ParseWindows(entries, activeWindowAddress).value;
    forall i | 0 <= i < |entries|
      ensures windows[i].active <==> Index(entries[i], "address") == Str(activeWindowAddress)
    {
      FromJsonDataOutcome(entries[i], activeWindowAddress);
    }
  }

  /** A successful fetch has an active window exactly when some entry on the workspace has
      the focused window's address. */
  lemma FetchActiveWindowsSomeActive(workspace: Value, clients: Value)
    requires AsI64(Index(workspace, "id")).Some? && Index(workspace, "lastwindow").Str?
    requires clients.Array?
    requires FetchActiveWindows(Success(workspace), Success(clients)).Success?
    ensures
      var retained := OnActiveWorkspace(clients.items, Index(workspace, "id").i);
      var r := FetchActiveWindows(Success(workspace), Success(clients)).value;
      SomeActive(r) <==>
        exists i :: 0 <= i < |retained| && Index(retained[i], "address") == Index(workspace, "lastwindow")
  {
    var retained := OnActiveWorkspace(clients.items, Index(workspace, "id").i);
    var activeWindowAddress := Index(workspace, "lastwindow").s;
    FetchActiveWindowsParses(workspace, clients);
    var windows := ParseWindows(retained, activeWindowAddress).value;
    var r := StableSortByGroup(windows);
    ParsedActive(retained, activeWindowAddress);
    StableSortByGroupActive(windows);
    ActiveCountZero(windows);
    ActiveCountZero(r);
    if SomeActive(windows) {
      var i :| 0 <= i < |windows| && windows[i].active;
      assert Index(retained[i], "address") == Str(activeWindowAddress);
    }
    if exists i :: 0 <= i < |retained| && Index(retained[i], "address") == Index(workspace, "lastwindow") {
      var i :| 0 <= i < |retained| && Index(retained[i], "address") == Index(workspace, "lastwindow");
      assert windows[i].active;
    }
  }

  /** With distinct addresses on the workspace, a successful fetch has at most one active
      window. */
  lemma FetchActiveWindowsOneActive(workspace: Value, clients: Value)
    requires AsI64(Index(workspace, "id")).Some? && Index(workspace, "lastwindow").Str?
    requires clients.Array?
    requires DistinctAddresses(OnActiveWorkspace(clients.items, Index(workspace, "id").i))
    requires FetchActiveWindows(Success(workspace), Success(clients)).Success?
    ensures NoTwoActive(FetchActiveWindows(Success(workspace), Success(clients)).value)
  {
    var retained := OnActiveWorkspace(clients.items, Index(workspace, "id").i);
    var activeWindowAddress := Index(workspace, "lastwindow").s;
    FetchActiveWindowsParses(workspace, clients);
    var windows := ParseWindows(retained, activeWindowAddress).value;
    ParsedActive(retained, activeWindowAddress);
    assert NoTwoActive(windows) by {
      forall i, j | 0 <= i < j < |windows| ensures !(windows[i].active && windows[j].active) {
        assert Index(retained[i], "address") != Index(retained[j], "address");
      }
    }
    ActiveCountAtMostOne(windows);
    StableSortByGroupActive(windows);
    ActiveCountAtMostOne(StableSortByGroup(windows));
  }

  /** The refresh step as the program runs it: the pure steps, then the batch copied into a
      buffer that is sorted in place. */
  method FetchActiveWindowsData(workspaceResponse: Result<Value, Error>, clientsResponse: Result<Value, Error>)
    returns (r: Result<seq<WindowData>, Error>)
    ensures r == FetchActiveWindows(workspaceResponse, clientsResponse)
  {
    if workspaceResponse.Failure? {
      return Failure(workspaceResponse.error);
    }
    var workspace := workspaceResponse.value;
    var id := AsI64(Index(workspace, "id"));
    if id.None? {
      return Failure(DataFetch("Cannot get id from workspace data"));
    }
    var activeWindowAddress := AsStr(Index(workspace, "lastwindow"));
    if activeWindowAddress.None? {
      return Failure(DataFetch("Cannot get active window address from workspace data"));
    }
    if clientsResponse.Failure? {
      return Failure(clientsResponse.error);
    }
    var entries := AsArray(clientsResponse.value);
    if entries.None? {
      return Failure(DataFetch("Cannot convert hyprctl clients output as array"));
    }
    var parsed := ParseWindows(OnActiveWorkspace(entries.value, id.value), activeWindowAddress.value);
    if parsed.Failure? {
      return Failure(parsed.error);
    }
    var windows := parsed.value;
    var buffer := new WindowData[|windows|](i requires 0 <= i < |windows| => windows[i]);
    assert buffer[..] == windows;
    SortByGroupIndex(buffer);
    return Success(buffer[..]);
  }
}
