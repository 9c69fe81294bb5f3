/** The validators of the backup forms: a file name that stays inside the
    backup directory, and the typed phrase that confirms a restore. */
module BackupSchema {

  /** The form field an issue is attached to. */
  datatype Field = Filename | Confirmation

  /** One validation issue: its path and its message. */
  datatype Issue = Issue(path: Field, message: string)

  const FilenameRequired := "El nombre del archivo es requerido."
  const FilenameInvalid := "Nombre de archivo inválido."
  const ConfirmationPhrase := "CONFIRMAR RESTAURACIÓN"
  const ConfirmationRequired := "Debe escribir la frase 'CONFIRMAR RESTAURACIÓN' para confirmar."

  /** `name.includes('..')`. */
  predicate HasDoubleDot(name: string) {
    exists i :: 0 <= i < |name| - 1 && name[i] == '.' && name[i + 1] == '.'
  }

  /** What the `refine` of `filenameSchema` lets through. */
  predicate SafeName(name: string) {
    !HasDoubleDot(name) && '/' !in name
  }

  /** An accepted file name: non-empty, no `/`, no `..`. */
  predicate FilenameValid(name: string) {
    name != "" && SafeName(name)
  }

  /** `filenameSchema`: `min(1)` and the `refine` both run, so the empty
      name gets only the first issue and an unsafe one only the second. */
  function FilenameIssues(name: string): (r: seq<Issue>)
    ensures forall i :: i in r ==> i.path == Filename
    ensures r == [] <==> FilenameValid(name)
    ensures name == "" <==> Issue(Filename, FilenameRequired) in r
    ensures !SafeName(name) <==> Issue(Filename, FilenameInvalid) in r
  {
    (if name == "" then [Issue(Filename, FilenameRequired)] else []) +
    (if SafeName(name) then [] else [Issue(Filename, FilenameInvalid)])
  }

  /** `restoreSchema`: the file name, then the object-level `refine` on the
      confirmation phrase, reported on the `confirmation` field. */
  function RestoreIssues(filename: string, confirmation: string): (r: seq<Issue>)
    ensures r == [] <==> FilenameValid(filename) && confirmation == ConfirmationPhrase
    ensures forall i :: i in r && i.path == Confirmation ==> i.message == ConfirmationRequired
    ensures Issue(Confirmation, ConfirmationRequired) in r <==> confirmation != ConfirmationPhrase
  {
    FilenameIssues(filename) +
    (if confirmation == ConfirmationPhrase then [] else [Issue(Confirmation, ConfirmationRequired)])
  }

  /** `deleteSchema`: only the file name. */
  function DeleteIssues(filename: string): (r: seq<Issue>)
    ensures r == [] <==> FilenameValid(filename)
  {
    FilenameIssues(filename)
  }

  /** A name accepted for deletion is accepted for restore exactly with the phrase. */
  lemma RestoreNeedsPhrase(filename: string, confirmation: string)
    requires DeleteIssues(filename) == []
    ensures RestoreIssues(filename, confirmation) == [] <==> confirmation == ConfirmationPhrase
  {
  }

  /** The phrase is compared exactly: no trimming and no case folding. */
  lemma PhraseIsExact()
    ensures RestoreIssues("backup.sql", "confirmar restauración") != []
    ensures RestoreIssues("backup.sql", "CONFIRMAR RESTAURACIÓN ") != []
    ensures RestoreIssues("backup.sql", "CONFIRMAR RESTAURACION") != []
  {
  }

  /** Names that climb out of the backup directory are refused. */
  lemma TraversalRefused()
    ensures FilenameIssues("../secret.sql") == [Issue(Filename, FilenameInvalid)]
    ensures FilenameIssues("sub/x.sql") == [Issue(Filename, FilenameInvalid)]
    ensures FilenameIssues("") == [Issue(Filename, FilenameRequired)]
  {
    assert "../secret.sql"[0] == '.' && "../secret.sql"[1] == '.';
    assert "sub/x.sql"[3] == '/';
  }

  /** A single dot passes: it names the backup directory itself. */
  lemma DirectoryNamePasses()
    ensures FilenameIssues(".") == []
    ensures FilenameIssues("..") == [Issue(Filename, FilenameInvalid)]
  {
    assert ".."[0] == '.' && ".."[1] == '.';
  }
}
