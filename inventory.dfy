/** The part of `get_installed_software` (list_software.py:44-88) that does not talk to the
    registry: reading one value, building the six-field record of one uninstall subkey, collecting
    the records of every registry path, and the order-preserving deduplication.

    The registry itself is not modelled. What the walk would read is given as data: for each of
    the three uninstall paths either `Missing` (opening it raises `FileNotFoundError`, the path
    is skipped), `Unreadable` (another `OSError` on the path, which is not caught and ends the
    call), or the list of its subkeys, where `None` stands for a subkey whose enumeration or
    opening raised `OSError` and is skipped. */
module Inventory {
  import opened Wrappers
  import opened Text
  import opened InstallDate
  import InstallDateProperties

  // ----- values and subkeys ----------------------------------------------------------------

  /** A value as `QueryValueEx` returns it: a string, or a value of another registry type,
      given here by the text `str()` renders for it. */
  datatype RegValue = StrValue(s: string) | OtherValue(repr: string)

  /** `_read_str_value` with the default `""`: a missing or unreadable value (`None`) reads as
      the empty string, a string is stripped, any other value is rendered with `str()`. */
  function ReadStrValue(v: Option<RegValue>): (r: string)
    ensures v.None? ==> r == ""
    ensures v.Some? && v.value.StrValue? ==> Trimmed(r) && r == Strip(v.value.s)
    ensures v.Some? && v.value.OtherValue? ==> r == v.value.repr
  {
    match v
    case None => ""
    case Some(StrValue(s)) =>
      StripSpec(s);
      Strip(s)
    case Some(OtherValue(repr)) => repr
  }

  /** The values of one uninstall subkey that the record builder reads. */
  datatype Subkey = Subkey(
    displayName: Option<RegValue>,
    quietDisplayName: Option<RegValue>,
    displayVersion: Option<RegValue>,
    publisher: Option<RegValue>,
    installDate: Option<RegValue>,
    installLocation: Option<RegValue>,
    uninstallString: Option<RegValue>)

  /** One row: "Software Name", "Version", "Publisher", "Install Date", "Install Location",
      "Uninstall String". */
  datatype Record = Record(
    name: string,
    version: string,
    publisher: string,
    installDate: string,
    installLocation: string,
    uninstallString: string)

  /** The name the builder uses: `DisplayName`, or `QuietDisplayName` when that reads empty. */
  function DisplayName(sk: Subkey): (r: string)
    ensures r == "" <==> ReadStrValue(sk.displayName) == "" && ReadStrValue(sk.quietDisplayName) == ""
    ensures ReadStrValue(sk.displayName) != "" ==> r == ReadStrValue(sk.displayName)
    ensures ReadStrValue(sk.displayName) == "" ==> r == ReadStrValue(sk.quietDisplayName)
  {
    var name := ReadStrValue(sk.displayName);
    if name != "" then name else ReadStrValue(sk.quietDisplayName)
  }

  /** A record the builder can produce: it has a name, and its install date is already what the
      normalizer makes of it. */
  predicate WellFormed(r: Record)
  {
    r.name != "" && ParseInstallDate(r.installDate) == r.installDate
  }

  /** The body of the subkey loop: no record when both names read empty, otherwise the six
      fields with the install date normalized. */
  function BuildRecord(sk: Subkey): (r: Option<Record>)
    ensures r.None? <==> ReadStrValue(sk.displayName) == "" && ReadStrValue(sk.quietDisplayName) == ""
    ensures r.Some? ==> WellFormed(r.value)
    ensures r.Some? ==> r.value.name == DisplayName(sk)
    ensures r.Some? ==> r.value.installDate == ParseInstallDate(ReadStrValue(sk.installDate))
    ensures r.Some? ==> r.value.version == ReadStrValue(sk.displayVersion)
    ensures r.Some? ==> r.value.publisher == ReadStrValue(sk.publisher)
    ensures r.Some? ==> r.value.installLocation == ReadStrValue(sk.installLocation)
    ensures r.Some? ==> r.value.uninstallString == ReadStrValue(sk.uninstallString)
  {
    var name := DisplayName(sk);
    if name == "" then None
    else
      var date := ParseInstallDate(ReadStrValue(sk.installDate));
      InstallDateProperties.ParseInstallDateIdempotent(ReadStrValue(sk.installDate));
      Some(Record(
        name,
        ReadStrValue(sk.displayVersion),
        ReadStrValue(sk.publisher),
        date,
        ReadStrValue(sk.installLocation),
        ReadStrValue(sk.uninstallString)))
  }

  // ----- collecting rows -------------------------------------------------------------------

  datatype PathListing = Missing | Unreadable | Listing(subkeys: seq<Option<Subkey>>)

  /** The rows one subkey contributes. */
  function SubkeyRows(entry: Option<Subkey>): seq<Record>
  {
    match entry
    case None => []
    case Some(sk) =>
      match BuildRecord(sk)
      case None => []
      case Some(r) => [r]
  }

  /** The rows of the subkeys of one path, in enumeration order. */
  function Rows(subkeys: seq<Option<Subkey>>): seq<Record>
  {
    if subkeys == [] then []
    else Rows(subkeys[..|subkeys| - 1]) + SubkeyRows(subkeys[|subkeys| - 1])
  }

  /** The rows of one path. */
  function PathRows(p: PathListing): seq<Record>
  {
    if p.Listing? then Rows(p.subkeys) else []
  }

  /** The rows of all paths, path by path. */
  function Collect(listings: seq<PathListing>): seq<Record>
  {
    if listings == [] then []
    else Collect(listings[..|listings| - 1]) + PathRows(listings[|listings| - 1])
  }

  predicate Readable(listings: seq<PathListing>)
  {
    forall p :: 0 <= p < |listings| ==> !listings[p].Unreadable?
  }

  // ----- deduplication ----------------------------------------------------------------------

  datatype Key = Key(name: string, version: string, publisher: string, installDate: string)

  /** The dedup key (name, version, publisher, install date). */
  function KeyOf(r: Record): Key
  {
    Key(r.name, r.version, r.publisher, r.installDate)
  }

  function KeySet(rs: seq<Record>): set<Key>
  {
    set i | 0 <= i < |rs| :: KeyOf(rs[i])
  }

  predicate DistinctKeys(rs: seq<Record>)
  {
    forall i, j :: 0 <= i < j < |rs| ==> KeyOf(rs[i]) != KeyOf(rs[j])
  }

  /** What the `OrderedDict` holds after the loop: a record is kept when no earlier kept record
      has its key. */
  function Dedup(rs: seq<Record>): (r: seq<Record>)
    ensures |r| <= |rs|
    ensures r == [] <==> rs == []
  {
    if rs == [] then []
    else
      var kept := Dedup(rs[..|rs| - 1]);
      var last := rs[|rs| - 1];
      if KeyOf(last) in KeySet(kept) then kept else kept + [last]
  }

  /** Whether `rs[i]` is the first record of `rs` with its key. */
  predicate IsFirst(rs: seq<Record>, i: nat)
    requires i < |rs|
  {
    forall j :: 0 <= j < i ==> KeyOf(rs[j]) != KeyOf(rs[i])
  }

  /** Reference: the records among the first `n` that are first occurrences of their key, in
      input order. */
  function FirstOccurrences(rs: seq<Record>, n: nat): seq<Record>
    requires n <= |rs|
  {
    if n == 0 then []
    else FirstOccurrences(rs, n - 1) + (if IsFirst(rs, n - 1) then [rs[n - 1]] else [])
  }

  /** `a` is `b` with some elements removed. */
  predicate IsSubseq(a: seq<Record>, b: seq<Record>)
  {
    if a == [] then true
    else if b == [] then false
    else (a[|a| - 1] == b[|b| - 1] && IsSubseq(a[..|a| - 1], b[..|b| - 1])) || IsSubseq(a, b[..|b| - 1])
  }

  /** `get_installed_software` as a function of what the registry walk reads: the call fails
      when a path is unreadable, and otherwise returns the deduplicated rows. */
  function InstalledSoftware(listings: seq<PathListing>): Option<seq<Record>>
  {
    if Readable(listings) then Some(Dedup(Collect(listings))) else None
  }

  /** `get_installed_software`: the walk over the paths collecting `rows`, then the dedup. An
      unreadable path makes the call fail. */
  method GetInstalledSoftware(listings: seq<PathListing>) returns (data: Option<seq<Record>>)
    ensures data == InstalledSoftware(listings)
  {
    var rows := CollectRows(listings);
    if rows.None? {
      return None;
    }
    var unique := DedupRows(rows.value);
    return Some(unique);
  }

  /** The walk: for each path, for each subkey, append the record it builds to `rows`. */
  method CollectRows(listings: seq<PathListing>) returns (rows: Option<seq<Record>>)
    ensures rows == if Readable(listings) then Some(Collect(listings)) else None
  {
    var acc: seq<Record> := [];
    var p := 0;
    while p < |listings|
      invariant 0 <= p <= |listings|
      invariant forall q :: 0 <= q < p ==> !listings[q].Unreadable?
      invariant acc == Collect(listings[..p])
    {
      CollectSnoc(listings, p);
      match listings[p] {
        case Missing =>
        case Unreadable =>
          assert !Readable(listings) by {
            assert listings[p].Unreadable?;
          }
          return None;
        case Listing(subkeys) =>
          acc := AppendRows(acc, subkeys);
      }
      p := p + 1;
    }
    assert listings[..p] == listings;
    return Some(acc);
  }

  /** One more path appends its rows. */
  lemma CollectSnoc(listings: seq<PathListing>, p: nat)
    requires p < |listings|
    ensures Collect(listings[..p + 1]) == Collect(listings[..p]) + PathRows(listings[p])
  {
    assert listings[..p + 1][..p] == listings[..p];
  }

  /** The subkey loop of one path: each subkey that opens and has a name appends its record. */
  method AppendRows(rows: seq<Record>, subkeys: seq<Option<Subkey>>) returns (acc: seq<Record>)
    ensures acc == rows + Rows(subkeys)
  {
    acc := rows;
    var i := 0;
    while i < |subkeys|
      invariant 0 <= i <= |subkeys|
      invariant acc == rows + Rows(subkeys[..i])
    {
      ghost var step := SubkeyRows(subkeys[i]);
      assert Rows(subkeys[..i + 1]) == Rows(subkeys[..i]) + step by {
        assert subkeys[..i + 1][..i] == subkeys[..i];
      }
      assert rows + Rows(subkeys[..i + 1]) == acc + step;
      match subkeys[i] {
        case None =>
        case Some(sk) =>
          var r := BuildRecord(sk);
          if r.Some? {
            acc := acc + [r.value];
          }
      }
      i := i + 1;
    }
    assert subkeys[..i] == subkeys;
  }

  /** The dedup loop: `unique` keeps the records in insertion order and `seen` the keys already
      inserted; a record is inserted only when its key is not yet present. */
  method DedupRows(rows: seq<Record>) returns (unique: seq<Record>)
    ensures unique == Dedup(rows)
  {
    unique := [];
    var seen: set<Key> := {};
    var k := 0;
    while k < |rows|
      invariant 0 <= k <= |rows|
      invariant unique == Dedup(rows[..k])
      invariant seen == KeySet(unique)
    {
      assert rows[..k + 1][..k] == rows[..k];
      var key := KeyOf(rows[k]);
      if key !in seen {
        KeySetAppend(unique, rows[k]);
        unique := unique + [rows[k]];
        seen := seen + {key};
      }
      k := k + 1;
    }
    assert rows[..k] == rows;
  }

  // ----- properties -------------------------------------------------------------------------

  lemma KeySetAppend(rs: seq<Record>, r: Record)
    ensures KeySet(rs + [r]) == KeySet(rs) + {KeyOf(r)}
  {
    var t := rs + [r];
    forall k | k in KeySet(t) ensures k in KeySet(rs) + {KeyOf(r)} {
      var i :| 0 <= i < |t| && KeyOf(t[i]) == k;
      if i < |rs| {
        assert t[i] == rs[i];
      }
    }
    forall k | k in KeySet(rs) + {KeyOf(r)} ensures k in KeySet(t) {
      if k == KeyOf(r) {
        assert KeyOf(t[|rs|]) == k;
      } else {
        var i :| 0 <= i < |rs| && KeyOf(rs[i]) == k;
        assert KeyOf(t[i]) == k;
      }
    }
  }

  /** Every collected row is well formed: built records have a name and a normalized date. */
  lemma {:induction false} RowsWellFormed(subkeys: seq<Option<Subkey>>)
    ensures forall i :: 0 <= i < |Rows(subkeys)| ==> WellFormed(Rows(subkeys)[i])
  {
    if subkeys != [] {
      RowsWellFormed(subkeys[..|subkeys| - 1]);
    }
  }

  lemma {:induction false} CollectWellFormed(listings: seq<PathListing>)
    ensures forall i :: 0 <= i < |Collect(listings)| ==> WellFormed(Collect(listings)[i])
  {
    if listings != [] {
      CollectWellFormed(listings[..|listings| - 1]);
      var last := listings[|listings| - 1];
      if last.Listing? {
        RowsWellFormed(last.subkeys);
      }
    }
  }

  /** The dedup keeps exactly the keys of its input. */
  lemma {:induction false} DedupKeySet(rs: seq<Record>)
    ensures KeySet(Dedup(rs)) == KeySet(rs)
  {
    if rs != [] {
      var init := rs[..|rs| - 1];
      var last := rs[|rs| - 1];
      DedupKeySet(init);
      assert rs == init + [last];
      KeySetAppend(init, last);
      if KeyOf(last) !in KeySet(Dedup(init)) {
        KeySetAppend(Dedup(init), last);
      }
    }
  }

  /** No two kept records share a key. */
  lemma {:induction false} DedupDistinct(rs: seq<Record>)
    ensures DistinctKeys(Dedup(rs))
  {
    if rs != [] {
      var init := rs[..|rs| - 1];
      var last := rs[|rs| - 1];
      DedupDistinct(init);
      var kept := Dedup(init);
      if KeyOf(last) !in KeySet(kept) {
        var t := kept + [last];
        forall i, j | 0 <= i < j < |t| ensures KeyOf(t[i]) != KeyOf(t[j]) {
          if j == |kept| {
            assert t[i] == kept[i];
            assert KeyOf(kept[i]) in KeySet(kept);
          } else {
            assert t[i] == kept[i] && t[j] == kept[j];
          }
        }
      }
    }
  }

  /** The dedup keeps, in input order, precisely the first record of each key. */
  lemma {:induction false} DedupFirstOccurrences(rs: seq<Record>, n: nat)
    requires n <= |rs|
    ensures Dedup(rs[..n]) == FirstOccurrences(rs, n)
  {
    if n > 0 {
      var init := rs[..n][..n - 1];
      assert init == rs[..n - 1];
      DedupFirstOccurrences(rs, n - 1);
      DedupKeySet(init);
      var last := rs[n - 1];
      assert rs[..n][n - 1] == last;
      if IsFirst(rs, n - 1) {
        assert KeyOf(last) !in KeySet(init) by {
          forall j | 0 <= j < |init| ensures KeyOf(init[j]) != KeyOf(last) {
            assert init[j] == rs[j];
          }
        }
      } else {
        var j :| 0 <= j < n - 1 && KeyOf(rs[j]) == KeyOf(rs[n - 1]);
        assert KeyOf(init[j]) in KeySet(init);
      }
    }
  }

  lemma DedupIsFirstOccurrences(rs: seq<Record>)
    ensures Dedup(rs) == FirstOccurrences(rs, |rs|)
  {
    assert rs[..|rs|] == rs;
    DedupFirstOccurrences(rs, |rs|);
  }

  /** The output is the input with some records dropped. */
  lemma {:induction false} DedupSubseq(rs: seq<Record>)
    ensures IsSubseq(Dedup(rs), rs)
  {
    if rs != [] {
      var init := rs[..|rs| - 1];
      DedupSubseq(init);
      var kept := Dedup(init);
      if KeyOf(rs[|rs| - 1]) in KeySet(kept) {
        SubseqExtend(kept, init, rs[|rs| - 1]);
        assert init + [rs[|rs| - 1]] == rs;
      } else {
        var t := kept + [rs[|rs| - 1]];
        assert t[..|t| - 1] == kept;
      }
    }
  }

  lemma SubseqExtend(a: seq<Record>, b: seq<Record>, x: Record)
    requires IsSubseq(a, b)
    ensures IsSubseq(a, b + [x])
  {
    assert (b + [x])[..|b|] == b;
  }

  /** Input that already has distinct keys passes unchanged. */
  lemma {:induction false} DedupOfDistinct(rs: seq<Record>)
    requires DistinctKeys(rs)
    ensures Dedup(rs) == rs
  {
    if rs != [] {
      var init := rs[..|rs| - 1];
      var last := rs[|rs| - 1];
      assert DistinctKeys(init) by {
        forall i, j | 0 <= i < j < |init| ensures KeyOf(init[i]) != KeyOf(init[j]) {
          assert init[i] == rs[i] && init[j] == rs[j];
        }
      }
      DedupOfDistinct(init);
      assert KeyOf(last) !in KeySet(init) by {
        forall j | 0 <= j < |init| ensures KeyOf(init[j]) != KeyOf(last) {
          assert init[j] == rs[j];
        }
      }
      assert init + [last] == rs;
    }
  }

  /** Deduplicating twice is deduplicating once. */
  lemma DedupIdempotent(rs: seq<Record>)
    ensures Dedup(Dedup(rs)) == Dedup(rs)
  {
    DedupDistinct(rs);
    DedupOfDistinct(Dedup(rs));
  }

  /** A record of the output is a record of the input. */
  lemma {:induction false} SubseqMembers(a: seq<Record>, b: seq<Record>)
    requires IsSubseq(a, b)
    ensures forall i :: 0 <= i < |a| ==> a[i] in b
  {
    if a != [] && b != [] {
      var bi := b[..|b| - 1];
      if a[|a| - 1] == b[|b| - 1] && IsSubseq(a[..|a| - 1], bi) {
        SubseqMembers(a[..|a| - 1], bi);
        forall i | 0 <= i < |a| ensures a[i] in b {
          if i < |a| - 1 {
            assert a[i] == a[..|a| - 1][i];
            assert a[i] in bi;
          }
        }
      } else {
        SubseqMembers(a, bi);
      }
    }
  }

  /** What `get_installed_software` returns when no path is unreadable: well-formed records
      with pairwise distinct keys, covering every key of the collected rows. */
  lemma InstalledSoftwareResult(listings: seq<PathListing>)
    requires Readable(listings)
    ensures var data := InstalledSoftware(listings).value;
      DistinctKeys(data)
      && KeySet(data) == KeySet(Collect(listings))
      && (forall i :: 0 <= i < |data| ==> WellFormed(data[i]))
  {
    var rows := Collect(listings);
    var data := Dedup(rows);
    DedupDistinct(rows);
    DedupKeySet(rows);
    DedupSubseq(rows);
    SubseqMembers(data, rows);
    CollectWellFormed(listings);
  }
}
