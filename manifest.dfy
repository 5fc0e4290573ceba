/**
  The manifest placeholder patch (main.cpp:118-123): when the manifest
  mentions `$ecid`, the first `<string>$ecid</string>` is replaced by the ECID
  as an XML integer. The guard looks for the short placeholder but the
  replacement looks for the whole tag; when only the first is there, `find`
  yields `npos` and `replace` throws `std::out_of_range`.
 */
module Manifest {
  import opened Wrappers
  import opened Text

  const PLACEHOLDER: string := "$ecid"
  const TARGET: string := "<string>$ecid</string>"

  function Replacement(ecid: string): string {
    "<integer>" + ecid + "</integer>"
  }

  /** `replace` at position `npos` throws: the tag the guard promised is not there. */
  datatype PatchError = TargetMissing

  /** The placeholder occurs, but never inside the whole tag. */
  predicate Dangling(manifest: string) {
    Contains(manifest, PLACEHOLDER) && !Contains(manifest, TARGET)
  }

  function PatchManifest(manifest: string, ecid: string): (r: Result<string, PatchError>)
    ensures r.Err? <==> Dangling(manifest)
    ensures !Contains(manifest, PLACEHOLDER) ==> r == Ok(manifest)
  {
    if !Contains(manifest, PLACEHOLDER) then Ok(manifest)
    else
      match Find(manifest, TARGET)
      case None => Err(TargetMissing)
      case Some(pos) => Ok(manifest[..pos] + Replacement(ecid) + manifest[pos + |TARGET|..])
  }

  /** Wherever the whole tag occurs, the placeholder occurs too. */
  lemma TargetHoldsPlaceholder(manifest: string, pos: nat)
    requires OccursAt(manifest, TARGET, pos)
    ensures OccursAt(manifest, PLACEHOLDER, pos + 8)
  {
    assert TARGET[8..13] == PLACEHOLDER;
    OccursInside(manifest, TARGET, PLACEHOLDER, pos, 8);
  }

  /**
    With the tag first occurring at `pos`, the patch replaces that occurrence
    and nothing else: the text before and after is unchanged, and the length
    grows by the difference between the replacement and the tag.
   */
  lemma PatchReplacesFirstTarget(manifest: string, ecid: string, pos: nat)
    requires OccursAt(manifest, TARGET, pos)
    requires forall q: nat :: q < pos ==> !OccursAt(manifest, TARGET, q)
    ensures PatchManifest(manifest, ecid).Ok?
    ensures var patched := PatchManifest(manifest, ecid).value;
      && patched == manifest[..pos] + Replacement(ecid) + manifest[pos + |TARGET|..]
      && patched[..pos] == manifest[..pos]
      && patched[pos..pos + |Replacement(ecid)|] == Replacement(ecid)
      && patched[pos + |Replacement(ecid)|..] == manifest[pos + |TARGET|..]
      && |patched| == |manifest| - |TARGET| + |Replacement(ecid)|
  {
    TargetHoldsPlaceholder(manifest, pos);
    FoundIfOccurs(manifest, PLACEHOLDER, pos + 8);
    FoundIfOccurs(manifest, TARGET, pos);
    assert Find(manifest, TARGET) == Some(pos);
  }
}
