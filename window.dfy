/** The per-window record of one refresh, validated out of one JSON client entry
    (src/window/mod.rs). */
module Window {
  import opened Wrappers
  import opened Errors
  import opened Json

  /** `usize::MAX`, the group index of a window that does not list itself in its group. */
  const USIZE_MAX: nat := 0xFFFF_FFFF_FFFF_FFFF

  datatype WindowData = WindowData(title: string, appName: string, active: bool, groupIndex: nat)

  /** `iter().position(|a| a == address).unwrap_or(usize::MAX)`. */
  function Position(addresses: seq<string>, address: string): (r: nat)
    ensures address in addresses ==>
      r < |addresses| && addresses[r] == address && address !in addresses[..r]
    ensures address !in addresses ==> r == USIZE_MAX
  {
    var k := FirstIndex(addresses, address);
    if k < |addresses| then k else USIZE_MAX
  }

  /** The index of the first occurrence of `address`, or the length when there is none. */
  function FirstIndex(addresses: seq<string>, address: string): (k: nat)
    ensures k <= |addresses| && address !in addresses[..k]
    ensures k < |addresses| <==> address in addresses
    ensures k < |addresses| ==> addresses[k] == address
  {
    if addresses == [] then 0
    else if addresses[0] == address then 0
    else
      var k := FirstIndex(addresses[1..], address);
      assert addresses[..k + 1] == [addresses[0]] + addresses[1..][..k];
      assert addresses == [addresses[0]] + addresses[1..];
      k + 1
  }

  /** Every element as a string (`map(as_str)` collected into a `Result<Vec<_>>`), or None at
      the first element that is not a string. */
  function Strings(items: seq<Value>): (r: Option<seq<string>>)
    ensures r.Some? <==> forall i :: 0 <= i < |items| ==> items[i].Str?
    ensures r.Some? ==> |r.value| == |items| && forall i :: 0 <= i < |items| ==> r.value[i] == items[i].s
  {
    if items == [] then Some([])
    else
      match AsStr(items[0])
      case None => None
      case Some(a) =>
        match Strings(items[1..])
        case None => None
        case Some(rest) => Some([a] + rest)
  }

  /** `WindowData::from_json_data`: the fields are examined in the order address, grouped,
      title, initialTitle, and the first one of the wrong shape decides the error. */
  function FromJsonData(data: Value, activeWindowAddress: string): (r: Result<WindowData, Error>)
    ensures r.Failure? ==> r.error.WindowDataParsing?
  {
    match AsStr(Index(data, "address"))
    case None => Failure(WindowDataParsing("Non-string window address"))
    case Some(address) =>
      var grouped := Index(data, "grouped");
      match (if grouped.Array? then Strings(grouped.items) else None)
      case None => Failure(WindowDataParsing("Non-array window group ids"))
      case Some(groupAddresses) =>
        var groupIndex := Position(groupAddresses, address);
        match AsStr(Index(data, "title"))
        case None => Failure(WindowDataParsing("Non-string window title"))
        case Some(title) =>
          match AsStr(Index(data, "initialTitle"))
          case None => Failure(WindowDataParsing("Non-string window initialTitle"))
          case Some(appName) =>
            Success(WindowData(title, appName, address == activeWindowAddress, groupIndex))
  }

  /** Which error a malformed entry yields, when an entry is accepted, and what the accepted
      window holds. */
  lemma FromJsonDataOutcome(data: Value, activeWindowAddress: string)
    ensures var r := FromJsonData(data, activeWindowAddress);
      && (!Index(data, "address").Str? ==>
            r == Failure(WindowDataParsing("Non-string window address")))
      && (Index(data, "address").Str? && !ValidGroup(Index(data, "grouped")) ==>
            r == Failure(WindowDataParsing("Non-array window group ids")))
      && (Index(data, "address").Str? && ValidGroup(Index(data, "grouped"))
          && !Index(data, "title").Str? ==>
            r == Failure(WindowDataParsing("Non-string window title")))
      && (Index(data, "address").Str? && ValidGroup(Index(data, "grouped"))
          && Index(data, "title").Str? && !Index(data, "initialTitle").Str? ==>
            r == Failure(WindowDataParsing("Non-string window initialTitle")))
      && (r.Success? <==>
            Index(data, "address").Str? && ValidGroup(Index(data, "grouped"))
            && Index(data, "title").Str? && Index(data, "initialTitle").Str?)
      && (r.Success? ==>
            var address := Index(data, "address").s;
            && r.value.active == (address == activeWindowAddress)
            && r.value.title == Index(data, "title").s
            && r.value.appName == Index(data, "initialTitle").s
            && IsGroupIndex(Index(data, "grouped").items, address, r.value.groupIndex))
  {
    var grouped := Index(data, "grouped");
    if Index(data, "address").Str? && ValidGroup(grouped) {
      var groupAddresses := Strings(grouped.items).value;
      assert groupAddresses == seq(|grouped.items|, i requires 0 <= i < |grouped.items| => grouped.items[i].s);
    }
  }

  /** `grouped` is an array of strings. */
  predicate ValidGroup(grouped: Value) {
    grouped.Array? && forall i :: 0 <= i < |grouped.items| ==> grouped.items[i].Str?
  }

  /** `k` is the index of the first entry of the group that is the string `address`, or
      `usize::MAX` when no entry is. */
  ghost predicate IsGroupIndex(group: seq<Value>, address: string, k: nat) {
    if exists i :: 0 <= i < |group| && group[i] == Str(address) then
      k < |group| && group[k] == Str(address) && forall j :: 0 <= j < k ==> group[j] != Str(address)
    else
      k == USIZE_MAX
  }
}
