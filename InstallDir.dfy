/** The configuration check run on the target directory before anything is
    copied (`_validateInstallDir`). */
module InstallDir {
  import opened Wrappers
  import opened FileSystem

  /** Accepts a target that is missing or a directory; anything else that
      exists is a configuration error carrying the installer's message. */
  function ValidateInstallDir(fs: Fs, installDir: string): (r: Result<(), string>)
    ensures r.Success? <==> installDir !in fs || fs[installDir] == Directory
    ensures r.Failure? ==>
      r.error == "cannot install to '" + installDir + "': exists and is not a directory"
  {
    if Exists(fs, installDir) && !IsDir(fs, installDir) then
      Failure("cannot install to '" + installDir + "': exists and is not a directory")
    else
      Success(())
  }
}
