/** The values that flow through upadup's patch engine.
    A pre-commit document is parsed once; every dependency string carries the
    line and column where the parser found it in the original text. */
module Types {

  datatype Option<T> = None | Some(value: T)

  /** The exceptions the core lets escape. */
  datatype Failure =
    | PackageNotFound(name: string)   // KeyError raised by the version map
    | LineOutOfRange(line: nat)       // IndexError indexing the line list
    | NoNewlineVariant                // IndexError taking the first of an empty tuple

  datatype Result<T> = Ok(value: T) | Err(error: Failure)

  /** A string scalar with its 0-based position in the ORIGINAL file. */
  datatype LocatedToken = LocatedToken(value: string, line: nat, col: nat)

  /** One planned substitution: replace `token` (at its original position) by `replacement`. */
  datatype Edit = Edit(token: LocatedToken, replacement: string)

  /** A hook; `additional_dependencies` may be absent from the mapping. */
  datatype HookConfig = HookConfig(id: string, additionalDependencies: Option<seq<LocatedToken>>)

  datatype RepoConfig = RepoConfig(repo: string, hooks: seq<HookConfig>)

  /** Package name to recommended version. */
  type VersionMap = map<string, string>

  /** The user's allow-list: normalised repo URL to the hook ids to check. */
  type UpadupConfig = map<string, set<string>>
}
