/**
 * The `key=value` header flags of the ping command (cmd/ping/module.go): each entry
 * is split at its first '=', which must not be its first character; key and value
 * are trimmed of white space and appended to the outgoing metadata, in input order.
 */
module Headers {
  import opened Wrappers
  import Strings

  /** `metadata.MD`: each key with its values in the order they were appended. */
  type Metadata = map<string, seq<string>>

  /** `MD.Append(key, value)` (key normalisation belongs to the library and is not modelled). */
  function Append(md: Metadata, key: string, value: string): (r: Metadata)
    ensures r.Keys == md.Keys + {key}
    ensures r[key] == (if key in md then md[key] else []) + [value]
    ensures forall k :: k in md && k != key ==> r[k] == md[k]
  {
    md[key := (if key in md then md[key] else []) + [value]]
  }

  datatype Entry = Entry(key: string, value: string)

  /** One header flag: `Some` when it is accepted, with its trimmed key and value. */
  function ParseEntry(h: string): (r: Option<Entry>)
    // Accepted exactly when it has an '=' and does not start with one.
    ensures r.Some? <==> '=' in h && h[0] != '='
    // The split is at the first '='; later ones stay in the value.
    ensures r.Some? ==>
      exists i :: 0 < i < |h| && h[i] == '=' && '=' !in h[..i]
        && r.value == Entry(Strings.TrimSpace(h[..i]), Strings.TrimSpace(h[i + 1..]))
  {
    var idx := Strings.IndexOf(h, '=');
    if idx > 0 then
      Some(Entry(Strings.TrimSpace(h[..idx]), Strings.TrimSpace(h[idx + 1..])))
    else
      assert idx == 0 ==> h[0] == '=';
      None
  }

  /**
   * Joining a key without '=' to any value and splitting again gives back the
   * trimmed key and the trimmed value, even when the value holds more '='.
   */
  lemma EntryRoundTrip(key: string, value: string)
    requires key != [] && '=' !in key
    ensures ParseEntry(key + "=" + value) == Some(Entry(Strings.TrimSpace(key), Strings.TrimSpace(value)))
  {
    var h := key + "=" + value;
    assert h[..|key|] == key;
    Strings.IndexOfFirst(h, '=', |key|);
    assert h[|key| + 1..] == value;
  }

  /** The index test looks at the untrimmed entry, so " =v" is accepted with an empty key. */
  lemma BlankKeyAccepted()
    ensures ParseEntry(" =v") == Some(Entry("", "v"))
  {
    var h := " =v";
    assert h[..1] == " " && h[1] == '=';
    Strings.IndexOfFirst(h, '=', 1);
    assert h[2..] == "v";
    assert Strings.AllSpace(" ");
    assert !Strings.IsSpace('v');
  }

  /** The accepted entries of `hs`, in input order: the reference definition `ParseHeaders` is checked against. */
  function Accepted(hs: seq<string>): (es: seq<Entry>)
    ensures |es| <= |hs|
  {
    if hs == [] then []
    else Accepted(hs[..|hs| - 1]) + OptionToSeq(ParseEntry(hs[|hs| - 1]))
  }

  /** The values of the entries in `es` whose key is `key`, in order. */
  function ValuesOf(es: seq<Entry>, key: string): seq<string> {
    if es == [] then []
    else
      var last := es[|es| - 1];
      ValuesOf(es[..|es| - 1], key) + (if last.key == key then [last.value] else [])
  }

  /** The map holds, for every key, exactly the values of the accepted entries with that key. */
  ghost predicate Holds(md: Metadata, es: seq<Entry>) {
    && (forall k :: k in md <==> ValuesOf(es, k) != [])
    && (forall k :: k in md ==> md[k] == ValuesOf(es, k))
  }

  /** Appending one more entry keeps `Holds`. */
  lemma AppendHolds(md: Metadata, es: seq<Entry>, e: Entry)
    requires Holds(md, es)
    ensures Holds(Append(md, e.key, e.value), es + [e])
  {
    var es' := es + [e];
    assert es'[..|es'| - 1] == es;
    forall k ensures ValuesOf(es', k) == ValuesOf(es, k) + (if e.key == k then [e.value] else []) {
    }
  }

  /** The accepted entries of one more flag are those of the earlier ones plus its own. */
  lemma AcceptedSnoc(hs: seq<string>, i: nat)
    requires i < |hs|
    ensures Accepted(hs[..i + 1]) == Accepted(hs[..i]) + OptionToSeq(ParseEntry(hs[i]))
  {
    assert hs[..i + 1][..i] == hs[..i];
  }

  /** One pass of the loop body: append an accepted entry, ignore a skipped one. */
  function AddEntry(md: Metadata, entry: Option<Entry>): Metadata {
    if entry.Some? then Append(md, entry.value.key, entry.value.value) else md
  }

  /** A pass of the loop body keeps `Holds` for the entries seen so far. */
  lemma AddEntryHolds(md: Metadata, es: seq<Entry>, entry: Option<Entry>)
    requires Holds(md, es)
    ensures Holds(AddEntry(md, entry), es + OptionToSeq(entry))
  {
    if entry.Some? {
      AppendHolds(md, es, entry.value);
    } else {
      assert es + OptionToSeq(entry) == es;
    }
  }

  /** The header loop of the ping command. */
  method ParseHeaders(hs: seq<string>) returns (md: Metadata)
    ensures forall k :: k in md <==> ValuesOf(Accepted(hs), k) != []
    ensures forall k :: k in md ==> md[k] == ValuesOf(Accepted(hs), k)
  {
    md := map[];
    var i := 0;
    while i < |hs|
      invariant 0 <= i <= |hs|
      invariant Holds(md, Accepted(hs[..i]))
    {
      AcceptedSnoc(hs, i);
      var entry := ParseEntry(hs[i]);
      AddEntryHolds(md, Accepted(hs[..i]), entry);
      md := AddEntry(md, entry);
      i := i + 1;
    }
    assert hs[..i] == hs;
  }
}
