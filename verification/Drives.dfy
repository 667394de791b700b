/** The mounts the drive list shows: each device once, at its first accepted mount. */
module Drives {
  import opened Bytes
  import opened Sequences
  import opened StringSets

  /** A line of /proc/mounts; `blocks` is what statvfs reports, None when it fails. */
  datatype Mount = Mount(device: Key, dir: ByteString, fsType: ByteString, blocks: Option<nat>)

  const INITIAL_CAPACITY: nat := 256

  const IGNORED: seq<ByteString> :=
    [Ascii("/."), Ascii("/boot"), Ascii("/mnt/wslg/distro"), Ascii("/run/user"), Ascii("/var"), Ascii("/apex"),
     Ascii("/bootstrap-apex")]

  /** is_ignored_mount_point: the path itself or something below it. */
  predicate IsIgnored(dir: ByteString, ignored: ByteString) {
    StartsWith(dir, ignored) && (|dir| == |ignored| || dir[|ignored|] == 47)
  }

  /** The prefix test with the boundary check accepts the path itself and what lies below it, no sibling. */
  lemma IgnoredAtBoundary(dir: ByteString, ignored: ByteString)
    ensures IsIgnored(dir, ignored) <==> dir == ignored || StartsWith(dir, ignored + [47])
  {
    if |dir| > |ignored| {
      assert dir[..|ignored| + 1] == dir[..|ignored|] + [dir[|ignored|]];
      assert (ignored + [47])[..|ignored|] == ignored && (ignored + [47])[|ignored|] == 47;
      if dir[..|ignored| + 1] == ignored + [47] {
        assert dir[..|ignored|] == dir[..|ignored| + 1][..|ignored|];
      }
    } else if |dir| == |ignored| {
      assert dir[..|ignored|] == dir;
    }
  }

  /** What is_valid_mount accepts. */
  predicate IsValidMount(m: Mount) {
    && StartsWith(m.device, Ascii("/dev/"))
    && !StartsWith(m.device, Ascii("/dev/loop"))
    && !StartsWith(m.fsType, Ascii("fuse")) && m.fsType != Ascii("erofs")
    && forall i :: 0 <= i < |IGNORED| ==> !IsIgnored(m.dir, IGNORED[i])
  }

  /** is_valid_mount. */
  method CheckMount(m: Mount) returns (valid: bool)
    ensures valid == IsValidMount(m)
  {
    if !StartsWith(m.device, Ascii("/dev/")) {
      return false;
    }
    if StartsWith(m.device, Ascii("/dev/loop")) {
      return false;
    }
    if StartsWith(m.fsType, Ascii("fuse")) || m.fsType == Ascii("erofs") {
      return false;
    }
    for i := 0 to |IGNORED|
      invariant forall j :: 0 <= j < i ==> !IsIgnored(m.dir, IGNORED[j])
    {
      if IsIgnored(m.dir, IGNORED[i]) {
        return false;
      }
    }
    return true;
  }

  /** A mount that counts: valid, readable by statvfs, not empty. */
  predicate Accepted(m: Mount) {
    IsValidMount(m) && m.blocks.Some? && m.blocks.value > 0
  }

  /** The accepted mounts, in order. */
  function AcceptedMounts(mounts: seq<Mount>): seq<Mount> {
    if mounts == [] then []
    else
      var last := mounts[|mounts| - 1];
      AcceptedMounts(mounts[..|mounts| - 1]) + if Accepted(last) then [last] else []
  }

  lemma AcceptedStep(mounts: seq<Mount>, i: nat)
    requires i < |mounts|
    ensures AcceptedMounts(mounts[..i + 1]) == AcceptedMounts(mounts[..i]) + if Accepted(mounts[i]) then [mounts[i]] else []
  {
    assert mounts[..i + 1][..i] == mounts[..i];
  }

  /** The tests in front of the string set: validity, statvfs, size. */
  method CheckAccepted(m: Mount) returns (accepted: bool)
    ensures accepted == Accepted(m)
  {
    var valid := CheckMount(m);
    if !valid {
      return false;
    }
    if m.blocks.None? {
      return false;
    }
    return m.blocks.value != 0;
  }

  // ----- Which mounts count, byte by byte -------------------------------------------------------------

  /** The directory itself or something below it. */
  predicate IsAtOrBelow(dir: ByteString, root: ByteString) {
    dir == root || StartsWith(dir, root + [47])
  }

  /** A mount that is listed: by its device, its file system, its directory and its size. */
  predicate IsListed(m: Mount) {
    && StartsWith(m.device, Ascii("/dev/")) && !StartsWith(m.device, Ascii("/dev/loop"))
    && !StartsWith(m.fsType, Ascii("fuse")) && m.fsType != Ascii("erofs")
    && !IsAtOrBelow(m.dir, Ascii("/.")) && !IsAtOrBelow(m.dir, Ascii("/boot"))
    && !IsAtOrBelow(m.dir, Ascii("/mnt/wslg/distro")) && !IsAtOrBelow(m.dir, Ascii("/run/user"))
    && !IsAtOrBelow(m.dir, Ascii("/var")) && !IsAtOrBelow(m.dir, Ascii("/apex"))
    && !IsAtOrBelow(m.dir, Ascii("/bootstrap-apex"))
    && m.blocks.Some? && m.blocks.value != 0
  }

  lemma IgnoredRoots(dir: ByteString)
    ensures (forall i :: 0 <= i < |IGNORED| ==> !IsIgnored(dir, IGNORED[i])) <==>
      && !IsIgnored(dir, Ascii("/.")) && !IsIgnored(dir, Ascii("/boot"))
      && !IsIgnored(dir, Ascii("/mnt/wslg/distro")) && !IsIgnored(dir, Ascii("/run/user"))
      && !IsIgnored(dir, Ascii("/var")) && !IsIgnored(dir, Ascii("/apex"))
      && !IsIgnored(dir, Ascii("/bootstrap-apex"))
  {
    var roots := IGNORED;
    assert |roots| == 7;
    assert roots[0] == Ascii("/.") && roots[1] == Ascii("/boot") && roots[2] == Ascii("/mnt/wslg/distro");
    assert roots[3] == Ascii("/run/user") && roots[4] == Ascii("/var") && roots[5] == Ascii("/apex");
    assert roots[6] == Ascii("/bootstrap-apex");
  }

  /** Exactly these mounts are accepted. */
  lemma AcceptedIff(m: Mount)
    ensures Accepted(m) <==> IsListed(m)
  {
    IgnoredRoots(m.dir);
    IgnoredAtBoundary(m.dir, Ascii("/."));
    IgnoredAtBoundary(m.dir, Ascii("/boot"));
    IgnoredAtBoundary(m.dir, Ascii("/mnt/wslg/distro"));
    IgnoredAtBoundary(m.dir, Ascii("/run/user"));
    IgnoredAtBoundary(m.dir, Ascii("/var"));
    IgnoredAtBoundary(m.dir, Ascii("/apex"));
    IgnoredAtBoundary(m.dir, Ascii("/bootstrap-apex"));
  }

  /** The accepted mounts are the listed ones, in their order and as often as they come. */
  lemma {:induction false} AcceptedAre(mounts: seq<Mount>)
    ensures IsSubsequence(AcceptedMounts(mounts), mounts)
    ensures forall m :: multiset(AcceptedMounts(mounts))[m] == if IsListed(m) then multiset(mounts)[m] else 0
  {
    if mounts != [] {
      var init, last := mounts[..|mounts| - 1], mounts[|mounts| - 1];
      assert mounts == init + [last];
      AcceptedAre(init);
      AcceptedIff(last);
      KeptOrDropped(AcceptedMounts(init), init, last, Accepted(last));
      assert AcceptedMounts(mounts) == AcceptedMounts(init) + if Accepted(last) then [last] else [];
    }
  }

  lemma KeptOrDropped(a: seq<Mount>, b: seq<Mount>, m: Mount, keep: bool)
    requires IsSubsequence(a, b)
    ensures IsSubsequence(a + if keep then [m] else [], b + [m])
  {
    if keep {
      SubsequenceRefl([m]);
      SubsequenceConcat(a, b, [m], [m]);
    } else {
      SubsequenceAppend(a, b, [m]);
      assert a + [] == a;
    }
  }

  // ----- Each device once ---------------------------------------------------------------------------

  function Devices(ms: seq<Mount>): set<Key> {
    set m | m in ms :: m.device
  }

  function Init(ms: seq<Mount>): (r: seq<Mount>)
    requires ms != []
    ensures ms == r + [ms[|ms| - 1]] && |r| == |ms| - 1
  {
    ms[..|ms| - 1]
  }

  /** The first mount of every device, in order. */
  function FirstMounts(ms: seq<Mount>): seq<Mount> {
    if ms == [] then []
    else FirstMounts(Init(ms)) + if ms[|ms| - 1].device in Devices(Init(ms)) then [] else [ms[|ms| - 1]]
  }

  lemma DevicesStep(ms: seq<Mount>)
    requires ms != []
    ensures Devices(ms) == Devices(Init(ms)) + {ms[|ms| - 1].device}
  {
    assert forall m :: m in ms <==> m in Init(ms) || m == ms[|ms| - 1];
  }

  lemma {:induction false} FirstMountsCover(ms: seq<Mount>)
    ensures forall m :: m in FirstMounts(ms) ==> m in ms
    ensures Devices(FirstMounts(ms)) == Devices(ms)
  {
    if ms != [] {
      FirstMountsCover(Init(ms));
      DevicesStep(ms);
      var was, last := FirstMounts(Init(ms)), ms[|ms| - 1];
      if last.device !in Devices(Init(ms)) {
        assert Init(was + [last]) == was;
        DevicesStep(was + [last]);
      }
    }
  }

  ghost predicate DistinctDevices(ms: seq<Mount>) {
    forall a, b :: 0 <= a < b < |ms| ==> ms[a].device != ms[b].device
  }

  lemma DistinctSnoc(ms: seq<Mount>, m: Mount)
    requires DistinctDevices(ms) && m.device !in Devices(ms)
    ensures DistinctDevices(ms + [m])
  {
    forall a | 0 <= a < |ms|
      ensures ms[a].device != m.device
    {
      assert ms[a] in ms;
    }
  }

  lemma {:induction false} FirstMountsDistinct(ms: seq<Mount>)
    ensures DistinctDevices(FirstMounts(ms))
  {
    if ms != [] {
      FirstMountsDistinct(Init(ms));
      FirstMountsCover(Init(ms));
      if ms[|ms| - 1].device !in Devices(Init(ms)) {
        DistinctSnoc(FirstMounts(Init(ms)), ms[|ms| - 1]);
      }
    }
  }

  /** The first mounts are mounts, cover exactly the devices, and name no device twice. */
  lemma FirstMountsFaithful(ms: seq<Mount>)
    ensures forall m :: m in FirstMounts(ms) ==> m in ms
    ensures Devices(FirstMounts(ms)) == Devices(ms) && DistinctDevices(FirstMounts(ms))
  {
    FirstMountsCover(ms);
    FirstMountsDistinct(ms);
  }

  /** Later mounts only add to the list, so a device is shown at its first mount and in that order. */
  lemma {:induction false} FirstMountsGrow(ms: seq<Mount>, more: seq<Mount>)
    ensures FirstMounts(ms) <= FirstMounts(ms + more)
    decreases |more|
  {
    if more == [] {
      assert ms + more == ms;
    } else {
      assert Init(ms + more) == ms + Init(more);
      FirstMountsGrow(ms, Init(more));
    }
  }

  // ----- The list when the set of device names can be full --------------------------------------------

  /** The device names the set holds in the end: it takes up to FULL of them. */
  function Recorded(ms: seq<Mount>): set<Key> {
    if ms == [] then {}
    else Recorded(Init(ms)) + if |Recorded(Init(ms))| < FULL then {ms[|ms| - 1].device} else {}
  }

  /** The mounts shown: those whose device is not recorded yet. */
  function Shown(ms: seq<Mount>): seq<Mount> {
    if ms == [] then []
    else Shown(Init(ms)) + if ms[|ms| - 1].device in Recorded(Init(ms)) then [] else [ms[|ms| - 1]]
  }

  lemma Smaller(a: set<Key>, b: set<Key>)
    requires a <= b
    ensures |a| <= |b|
  {
    assert b == a + (b - a);
  }

  lemma {:induction false} RecordedAreDevices(ms: seq<Mount>)
    ensures Recorded(ms) <= Devices(ms)
    ensures |Devices(ms)| <= FULL ==> Recorded(ms) == Devices(ms)
  {
    if ms != [] {
      RecordedAreDevices(Init(ms));
      DevicesStep(ms);
      Smaller(Devices(Init(ms)), Devices(ms));
      if |Recorded(Init(ms))| >= FULL && |Devices(ms)| <= FULL {
        Fills(Recorded(Init(ms)), Devices(ms));
      }
    }
  }

  lemma Fills(a: set<Key>, b: set<Key>)
    requires a <= b && |a| >= |b|
    ensures a == b
  {
    assert b == a + (b - a);
  }

  /** A repeated mount of a device came when the set was full already. */
  predicate SomeEscapes(ms: seq<Mount>) {
    ms != [] &&
    (SomeEscapes(Init(ms)) ||
     (ms[|ms| - 1].device in Devices(Init(ms)) && ms[|ms| - 1].device !in Recorded(Init(ms))))
  }

  lemma {:induction false} ShownAgainst(ms: seq<Mount>)
    ensures |Shown(ms)| >= |FirstMounts(ms)|
    ensures if SomeEscapes(ms) then |Shown(ms)| > |FirstMounts(ms)| else Shown(ms) == FirstMounts(ms)
  {
    if ms != [] {
      ShownAgainst(Init(ms));
      RecordedAreDevices(Init(ms));
    }
  }

  lemma {:induction false} NoneEscapes(ms: seq<Mount>)
    requires |Devices(ms)| <= FULL
    ensures !SomeEscapes(ms)
  {
    if ms != [] {
      DevicesStep(ms);
      Smaller(Devices(Init(ms)), Devices(ms));
      NoneEscapes(Init(ms));
      RecordedAreDevices(Init(ms));
    }
  }

  /** Each device is shown once, at its first mount, exactly unless a repeated one finds the set full. */
  lemma ShownIffFirst(ms: seq<Mount>)
    ensures Shown(ms) == FirstMounts(ms) <==> !SomeEscapes(ms)
    ensures |Devices(ms)| <= FULL ==> Shown(ms) == FirstMounts(ms)
  {
    ShownAgainst(ms);
    if |Devices(ms)| <= FULL {
      NoneEscapes(ms);
    }
  }

  /** What the two histories become after one more accepted mount. */
  lemma ShownSnoc(kept: seq<Mount>, m: Mount)
    ensures Shown(kept + [m]) == Shown(kept) + if m.device in Recorded(kept) then [] else [m]
    ensures Recorded(kept + [m]) == Recorded(kept) + if |Recorded(kept)| < FULL then {m.device} else {}
  {
    assert Init(kept + [m]) == kept;
  }

  /** The string set's part of the loop body: a device it does not know is recorded and shown. */
  method ShowOnce(devices: StringSet, m: Mount, ghost kept: seq<Mount>) returns (isNew: bool)
    requires devices.Valid() && devices.Contents() == Recorded(kept)
    modifies devices, devices.entries
    ensures devices.Valid() && (devices.entries == old(devices.entries) || fresh(devices.entries))
    ensures devices.Contents() == Recorded(kept + [m])
    ensures Shown(kept + [m]) == Shown(kept) + if isNew then [m] else []
  {
    ShownSnoc(kept, m);
    var seen := devices.Contains(m.device);
    isNew := !seen;
    if isNew {
      var added := devices.Add(m.device);
    }
  }

  /** The loop of hw_get_drives_info, from the string set's contract alone. */
  method ListDrives(mounts: seq<Mount>) returns (shown: seq<Mount>)
    ensures shown == Shown(AcceptedMounts(mounts))
  {
    shown := [];
    var devices := StringSet.Create(INITIAL_CAPACITY);
    ghost var kept := [];
    for i := 0 to |mounts|
      invariant devices != null && devices.Valid() && fresh(devices) && fresh(devices.entries)
      invariant kept == AcceptedMounts(mounts[..i])
      invariant devices.Contents() == Recorded(kept) && shown == Shown(kept)
    {
      AcceptedStep(mounts, i);
      var accepted := CheckAccepted(mounts[i]);
      if accepted {
        var isNew := ShowOnce(devices, mounts[i], kept);
        if isNew {
          shown := shown + [mounts[i]];
        }
        kept := kept + [mounts[i]];
      }
    }
    assert mounts[..|mounts|] == mounts;
  }
}
