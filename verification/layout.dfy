/** The page title the layout derives from the current route path
    (`getPageTitle` in `src/components/Layout.jsx`). */
module Layout {
  import opened Js

  /** "/" is the dashboard; any other path loses its leading character and
      has the next one upper-cased: `path.slice(1).charAt(0).toUpperCase() +
      path.slice(2)`. A path shorter than two characters other than "/"
      gives the empty title. */
  function PageTitle(path: string): (r: string)
    ensures path == "/" ==> r == "Dashboard"
    ensures path != "/" && |path| >= 2 ==>
              |r| == |path| - 1 && r[0] == UpperChar(path[1]) && r[1..] == path[2..]
    ensures path != "/" && |path| < 2 ==> r == ""
  {
    if path == "/" then "Dashboard"
    else if |path| < 2 then ""
    else [UpperChar(path[1])] + path[2..]
  }

  /** Upper-casing a character twice is upper-casing it once. */
  lemma UpperCharIdempotent(c: char)
    ensures UpperChar(UpperChar(c)) == UpperChar(c)
  {
  }

  /** Routing to "/" + title gives the same title back: the title is a
      fixed point of the transform for every non-root path. */
  lemma PageTitleFixedPoint(path: string)
    requires path != "/" && |path| >= 2
    ensures PageTitle("/" + PageTitle(path)) == PageTitle(path)
  {
    var t := PageTitle(path);
    var p := "/" + t;
    UpperCharIdempotent(path[1]);
    assert |p| >= 2;
    assert p[1] == t[0] && p[2..] == t[1..];
  }

  /** The routes of the sidebar map to their page names. */
  lemma PageTitleExamples()
    ensures PageTitle("/") == "Dashboard"
    ensures PageTitle("/students") == "Students"
    ensures PageTitle("/grades") == "Grades"
    ensures PageTitle("/attendance") == "Attendance"
    ensures PageTitle("/classes") == "Classes"
  {
  }
}
