/** The fixed parameters at the top of scrape.py and its link cap. */
module Config {
  import PosixPath

  const BaseUrl: string := "https://docs.cangjie-lang.cn"
  const StartUrl: string := BaseUrl + "/docs/0.53.13/user_manual/source_zh_cn/first_understanding/basic.html"

  /** The output root, a path relative to the working directory. */
  const OutputDir: string := "scraped_site"
  const CssDir: string := PosixPath.Join(OutputDir, "css")
  const JsDir: string := PosixPath.Join(OutputDir, "js")

  /** The versioned prefix stripped from page paths, "/docs/0.53.13", built from its components. */
  const DocsRootComps: seq<string> := ["docs", "0.53.13"]
  const DocsRoot: string := [PosixPath.Sep] + PosixPath.JoinWith(DocsRootComps)

  /** How many sidebar links are processed. */
  const LinkLimit: nat := 4
}
