/**
 * `CSVViewer`: the loaded data table, the path it was chosen from and the
 * table name derived from that path. The file dialogs and the CSV reading
 * and writing are outside the model: the chosen path and the table read
 * from it are parameters.
 */
module Viewer {
  import opened Wrappers
  import opened Text
  import opened Frames

  /**
   * The table name derived from a chosen path: the final path component, cut
   * before its extension, without surrounding whitespace (`os.path.basename`,
   * `os.path.splitext`, `str.strip`).
   */
  function FileNameFromPath(path: string): (name: string)
    ensures '/' !in name
    ensures |name| > 0 ==> !IsSpace(name[0]) && !IsSpace(name[|name| - 1])
    ensures Strip(name) == name
    ensures |name| <= |Basename(path)|
  {
    var base := Basename(path);
    var root := SplitExtRoot(base);
    var name := Strip(root);
    StripIdempotent(root);
    StripKeepsCharacters(root, '/');
    name
  }

  class CsvViewer {
    var df: Frame
    var fileName: Option<string>
    var filePath: Option<string>

    predicate Valid()
      reads this
    {
      WellFormed(df)
    }

    /** `CSVViewer.__init__`: an empty table and no file name yet. */
    constructor()
      ensures Valid()
      ensures df == Empty([]) && fileName == None && filePath == None
    {
      df := Empty([]);
      fileName := None;
      filePath := None;
    }

    /**
     * `get_csv`, after the open dialog returned `chosenPath` (empty when
     * cancelled) and the file at that path was read as `loaded`.
     */
    method GetCsv(chosenPath: string, loaded: Frame)
      requires Valid() && WellFormed(loaded)
      modifies this
      ensures Valid()
      ensures filePath == Some(chosenPath)
      ensures chosenPath == "" ==> df == old(df) && fileName == old(fileName)
      ensures chosenPath != "" ==> df == loaded && fileName == Some(FileNameFromPath(chosenPath))
    {
      filePath := Some(chosenPath);
      if chosenPath != "" {
        df := loaded;
        var base := Basename(chosenPath);
        var root := SplitExtRoot(base);
        fileName := Some(Strip(root));
      }
    }

    /**
     * `export_csv`, after the save dialog returned `savePath`: the chosen path,
     * even an empty one, becomes the file name; the table is written only for
     * a nonempty path (`wrote`).
     */
    method ExportCsv(savePath: string) returns (wrote: bool)
      modifies this
      ensures fileName == Some(savePath)
      ensures df == old(df) && filePath == old(filePath)
      ensures wrote <==> savePath != ""
    {
      fileName := Some(savePath);
      wrote := savePath != "";
    }
  }
}
