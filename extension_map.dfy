/**
 * The `extensions` and `mimeExtensions` objects that the build script fills for each
 * application from the `jupyterlab.extension` and `jupyterlab.mimeExtension` fields of
 * its extension packages' manifests, and hands to the entry-point template.
 * Their key order matters: the template emits one block per key, in that order.
 */
module ExtensionMap {
  import opened JsValues
  import opened SharedPolicy

  /** A JavaScript object used as a dictionary: its keys in insertion order, and its values. */
  datatype Dict = Dict(keys: seq<string>, values: map<string, Scalar>)

  ghost predicate WellFormed(d: Dict) {
    && (forall i, j | 0 <= i < j < |d.keys| :: d.keys[i] != d.keys[j])
    && (forall k :: k in d.values <==> k in d.keys)
  }

  /** `d[k] = v`: a new key goes last, an existing key keeps its place. */
  function Assign(d: Dict, k: string, v: Scalar): Dict {
    Dict(if k in d.values then d.keys else d.keys + [k], d.values[k := v])
  }

  datatype Field = ExtensionField | MimeExtensionField

  function FieldOf(lab: LabMetadata, f: Field): Scalar {
    match f
    case ExtensionField => lab.extension
    case MimeExtensionField => lab.mimeExtension
  }

  /** `extension === true ? '' : extension` (lines 204 and 207). */
  function EntryValue(v: Scalar): Scalar {
    if v == Bool(true) then Str("") else v
  }

  /** Every name has a manifest with a `jupyterlab` section; otherwise the destructuring
      at lines 200-202 throws. */
  predicate LabManifests(names: seq<string>, installed: Installed) {
    forall k <- names :: k in installed && installed[k].jupyterlab.Some?
  }

  /** The object that the loop of lines 199-209 builds for field `f`. */
  function EntriesOf(names: seq<string>, installed: Installed, f: Field): Dict
    requires LabManifests(names, installed)
    decreases |names|
  {
    if names == [] then Dict([], map[])
    else
      var k := names[|names| - 1];
      var d := EntriesOf(names[..|names| - 1], installed, f);
      var v := FieldOf(installed[k].jupyterlab.value, f);
      if v == Undefined then d else Assign(d, k, EntryValue(v))
  }

  /** Index of the first occurrence of `k` in `names`. */
  function FirstIndex(names: seq<string>, k: string): (i: nat)
    requires k in names
    ensures i < |names| && names[i] == k && k !in names[..i]
  {
    if names[0] == k then 0 else 1 + FirstIndex(names[1..], k)
  }

  /** The object has one key per listed package whose field is defined, holding the field
      with `true` turned into `''`, and no key twice. */
  lemma {:induction false} EntriesOfContents(names: seq<string>, installed: Installed, f: Field)
    requires LabManifests(names, installed)
    ensures WellFormed(EntriesOf(names, installed, f))
    ensures forall k :: k in EntriesOf(names, installed, f).values <==>
      k in names && FieldOf(installed[k].jupyterlab.value, f) != Undefined
    ensures forall k | k in EntriesOf(names, installed, f).values ::
      EntriesOf(names, installed, f).values[k] == EntryValue(FieldOf(installed[k].jupyterlab.value, f))
    decreases |names|
  {
    if names != [] {
      var init := names[..|names| - 1];
      EntriesOfContents(init, installed, f);
      assert names == init + [names[|names| - 1]];
    }
  }

  /** `keys` are names of `names`, in the order of their first occurrence there. */
  ghost predicate InFirstOccurrenceOrder(keys: seq<string>, names: seq<string>) {
    forall i, j | 0 <= i < j < |keys| ::
      keys[i] in names && keys[j] in names && FirstIndex(names, keys[i]) < FirstIndex(names, keys[j])
  }

  /** The keys come in the order in which their packages first appear in the list. */
  lemma {:induction false} EntriesOfOrder(names: seq<string>, installed: Installed, f: Field)
    requires LabManifests(names, installed)
    ensures InFirstOccurrenceOrder(EntriesOf(names, installed, f).keys, names)
    decreases |names|
  {
    if names != [] {
      var init := names[..|names| - 1];
      var k := names[|names| - 1];
      EntriesOfOrder(init, installed, f);
      EntriesOfContents(init, installed, f);
      var d := EntriesOf(init, installed, f);
      assert names == init + [k];
      assert forall x | x in d.keys :: x in init by {
        forall x | x in d.keys ensures x in init {
          assert x in d.values;
        }
      }
      if FieldOf(installed[k].jupyterlab.value, f) == Undefined || k in d.values {
        assert EntriesOf(names, installed, f).keys == d.keys;
        OrderExtends(d.keys, init, k);
      } else {
        assert EntriesOf(names, installed, f).keys == d.keys + [k];
        assert k !in init;
        OrderExtendsWithNew(d.keys, init, k);
      }
    }
  }

  lemma OrderExtends(keys: seq<string>, init: seq<string>, k: string)
    requires InFirstOccurrenceOrder(keys, init)
    requires forall x | x in keys :: x in init
    ensures InFirstOccurrenceOrder(keys, init + [k])
  {
    forall x | x in init ensures FirstIndex(init + [k], x) == FirstIndex(init, x) {
      FirstIndexOfPrefix(init, [k], x);
    }
  }

  lemma OrderExtendsWithNew(keys: seq<string>, init: seq<string>, k: string)
    requires InFirstOccurrenceOrder(keys, init)
    requires forall x | x in keys :: x in init
    requires k !in init
    ensures InFirstOccurrenceOrder(keys + [k], init + [k])
  {
    OrderExtends(keys, init, k);
    FirstIndexOfLast(init, k);
    var ks := keys + [k];
    forall i, j | 0 <= i < j < |ks|
      ensures ks[i] in init + [k] && ks[j] in init + [k] && FirstIndex(init + [k], ks[i]) < FirstIndex(init + [k], ks[j])
    {
      assert ks[i] == keys[i] && ks[i] in init;
      if j < |keys| {
        assert ks[j] == keys[j];
      } else {
        assert ks[j] == k;
        assert FirstIndex(init + [k], ks[i]) < |init| by {
          FirstIndexOfPrefix(init, [k], ks[i]);
        }
      }
    }
  }

  lemma {:induction false} FirstIndexOfPrefix(a: seq<string>, b: seq<string>, x: string)
    requires x in a
    ensures x in a + b && FirstIndex(a + b, x) == FirstIndex(a, x)
    decreases |a|
  {
    if a[0] != x {
      assert (a + b)[1..] == a[1..] + b;
      FirstIndexOfPrefix(a[1..], b, x);
    }
  }

  lemma {:induction false} FirstIndexOfLast(a: seq<string>, x: string)
    requires x !in a
    ensures FirstIndex(a + [x], x) == |a|
    decreases |a|
  {
    if a != [] {
      assert (a + [x])[1..] == a[1..] + [x];
      FirstIndexOfLast(a[1..], x);
    }
  }

  /** The loop of lines 199-209 over one application's extension packages. */
  method CollectExtensions(packageNames: seq<string>, installed: Installed) returns (r: Result<(Dict, Dict)>)
    ensures r.Ok? <==> LabManifests(packageNames, installed)
    ensures r.Ok? ==> r.value == (EntriesOf(packageNames, installed, ExtensionField),
                                  EntriesOf(packageNames, installed, MimeExtensionField))
  {
    var extensions := Dict([], map[]);
    var mimeExtensions := Dict([], map[]);
    for i := 0 to |packageNames|
      invariant LabManifests(packageNames[..i], installed)
      invariant extensions == EntriesOf(packageNames[..i], installed, ExtensionField)
      invariant mimeExtensions == EntriesOf(packageNames[..i], installed, MimeExtensionField)
    {
      var key := packageNames[i];
      assert packageNames[..i + 1][..i] == packageNames[..i];
      if key !in installed || installed[key].jupyterlab.None? {
        return RequireFailed;
      }
      var lab := installed[key].jupyterlab.value;
      if lab.extension != Undefined {
        extensions := Assign(extensions, key, if lab.extension == Bool(true) then Str("") else lab.extension);
      }
      if lab.mimeExtension != Undefined {
        mimeExtensions := Assign(mimeExtensions, key, if lab.mimeExtension == Bool(true) then Str("") else lab.mimeExtension);
      }
    }
    assert packageNames[..|packageNames|] == packageNames;
    return Ok((extensions, mimeExtensions));
  }
}
