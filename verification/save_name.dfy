/**
 Naming of the baked texture.

 The component validates its save-file name whenever the inspector changes it:
 an empty name is replaced by the name of the attached density volume followed
 by `_densityTex`; with no volume attached the name stays empty and a warning is
 logged. The baked texture itself is always named after the volume with the same
 suffix.
 */
module SaveName {
  import opened Wrappers

  const TextureSuffix: string := "_densityTex"

  /** The name derived from a density volume's name, used both for the texture and as the default file name. */
  function DefaultTextureName(volumeName: string): (n: string)
    ensures |n| == |volumeName| + |TextureSuffix|
    ensures n[..|volumeName|] == volumeName && n[|volumeName|..] == TextureSuffix
  {
    volumeName + TextureSuffix
  }

  /** The save-file name after validation, and whether the "name must not be empty" warning was logged. */
  datatype Validation = Validation(saveFileName: string, warned: bool)

  /**
   The inspector validation step. `densityVolume` is the name of the attached
   volume, or None when no volume is attached.
   */
  function OnValidate(saveFileName: string, densityVolume: Option<string>): (v: Validation)
    ensures saveFileName != [] ==> v.saveFileName == saveFileName && !v.warned
    ensures v.saveFileName != saveFileName ==> saveFileName == [] && densityVolume.Some?
    ensures saveFileName == [] && densityVolume.Some? ==> v.saveFileName == DefaultTextureName(densityVolume.value)
    ensures densityVolume.Some? ==> v.saveFileName != []
    ensures v.warned <==> v.saveFileName == []
  {
    if saveFileName == [] then
      match densityVolume
      case Some(volumeName) => Validation(DefaultTextureName(volumeName), false)
      case None => Validation(saveFileName, true)
    else
      Validation(saveFileName, false)
  }

  /** Validating an already validated name changes nothing more. */
  lemma OnValidateIdempotent(saveFileName: string, densityVolume: Option<string>)
    ensures OnValidate(OnValidate(saveFileName, densityVolume).saveFileName, densityVolume) == OnValidate(saveFileName, densityVolume)
  {
  }

  /** When validation fills in a name, the volume's name can be read back from it. */
  lemma DefaultNameRecoversVolume(densityVolume: Option<string>)
    requires densityVolume.Some?
    ensures var n := OnValidate([], densityVolume).saveFileName;
            |n| >= |TextureSuffix| && n[..|n| - |TextureSuffix|] == densityVolume.value
  {
  }
}
