/** The configuration directory inside the mailserver container (services/container.py):
    a map from relative path to text, in which an absent file reads as the empty text. */
module Container {
  datatype Option<+T> = None | Some(value: T)

  /** How a service call ends: with a value, or with one of the application's exceptions. */
  datatype Result<+T> = Ok(value: T) | BadRequest | NotFound | Conflict

  type Files = map<string, string>

  function Read(files: Files, path: string): string {
    if path in files then files[path] else ""
  }

  function Remove(files: Files, path: string): Files { files - {path} }

  class ConfigDir {
    var files: Files

    constructor (files: Files)
      ensures this.files == files
    {
      this.files := files;
    }

    method ReadConfig(path: string) returns (content: string)
      ensures content == Read(files, path)
    {
      content := if path in files then files[path] else "";
    }

    method WriteConfig(path: string, content: string)
      modifies this
      ensures files == old(files)[path := content]
    {
      files := files[path := content];
    }

    method DeleteConfig(path: string)
      modifies this
      ensures files == Remove(old(files), path)
    {
      files := files - {path};
    }
  }
}
