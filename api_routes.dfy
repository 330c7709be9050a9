/**
 * The source-text patcher that prepares app.py for a separate front end: it
 * adds the flask_cors import, the CORS configuration and a block of JSON API
 * routes to the text of app.py through guarded `str.replace` steps. Only the
 * text transformation is modelled; reading and writing the file are reduced
 * to an optional input and a flag saying whether the write succeeds.
 *
 * Long literals are written as concatenations of short pieces so that the
 * verifier can reason about their characters.
 */
module ApiRoutes {
  import opened Wrappers
  import opened Strings

  // ---------------------------------------------------------------------------
  // The literals the patcher searches for and inserts
  // ---------------------------------------------------------------------------

  const FlaskImport1: string := "from flask import Flask, "
  const FlaskImport2: string := "render_template, request, "
  const FlaskImport3: string := "redirect, url_for, flash, jsonify"

  /** The Flask import line of app.py. */
  const FlaskImport: string := FlaskImport1 + FlaskImport2 + FlaskImport3

  /** The import the first step adds. */
  const CorsImport: string := "from flask_cors import CORS"

  /** What each Flask import line becomes: the line followed by the CORS import. */
  const ImportReplacement: string := FlaskImport + "\n" + CorsImport

  /** The line that creates the application object. */
  const AppCreation: string := "app = Flask(__name__)"

  /** The guard of the configuration step: a CORS call on `app`. */
  const CorsCall: string := "CORS(app"

  const CorsBlock1: string := "\n\n# Enable CORS "
  const CorsBlock2: string := "for frontend integration\n"
  const CorsBlock3: string := "CORS(app, \n"
  const CorsBlock4: string := "     origins=[\"*\"],  # Allow all origins"
  const CorsBlock5: string := " - restrict this in production\n"
  const CorsBlock6: string := "     methods=[\"GET\", \"POST\", \"PUT\", "
  const CorsBlock7: string := "\"DELETE\", \"OPTIONS\"],\n"
  const CorsBlock8: string := "     allow_headers=[\"Content-Type\", "
  const CorsBlock9: string := "\"Authorization\"])"

  const CorsHead: string := CorsBlock1 + CorsBlock2
  const CorsOrigins: string := CorsBlock4 + CorsBlock5
  const CorsMethods: string := CorsBlock6 + CorsBlock7
  const CorsHeaders: string := CorsBlock8 + CorsBlock9
  const CorsLists: string := CorsMethods + CorsHeaders
  const CorsArgs: string := CorsOrigins + CorsLists
  const CorsCallBlock: string := CorsBlock3 + CorsArgs

  /** The CORS configuration block inserted after the application is created. */
  const CorsBlock: string := CorsHead + CorsCallBlock

  /** What each application-creation line becomes. */
  const ConfigReplacement: string := AppCreation + CorsBlock

  /** The two spellings of the existing projects route that mean the routes are present. */
  const RouteGuardSingle: string := "@app.route('/api/projects')"
  const RouteGuardDouble: string := "@app.route(\"/api/projects\")"

  /** The places before which the routes go, in order of preference. */
  const ErrorHandlersComment: string := "# Error handlers"
  const NotFoundHandler: string := "@app.errorhandler(404)"
  const MainGuard: string := "if __name__ == '__main__':"

  // ---------------------------------------------------------------------------
  // The three steps
  // ---------------------------------------------------------------------------

  /** Adds the CORS import after every Flask import line, unless it is already imported. */
  function ImportStep(c: string): string
  {
    if Contains(c, CorsImport) then c else ReplaceAll(c, FlaskImport, ImportReplacement)
  }

  /** Adds the CORS block after every application creation, unless CORS is already called. */
  function ConfigStep(c: string): string
  {
    if Contains(c, CorsCall) then c else ReplaceAll(c, AppCreation, ConfigReplacement)
  }

  /** The content already declares the projects route. */
  predicate HasProjectsRoute(c: string)
  {
    Contains(c, RouteGuardSingle) || Contains(c, RouteGuardDouble)
  }

  /** Inserts `routes` before the first anchor present, unless the projects route exists. */
  function RouteStep(c: string, routes: string): string
  {
    if HasProjectsRoute(c) then c
    else if Contains(c, ErrorHandlersComment) then
      ReplaceAll(c, ErrorHandlersComment, routes + "\n" + ErrorHandlersComment)
    else if Contains(c, NotFoundHandler) then
      ReplaceAll(c, NotFoundHandler, routes + "\n" + NotFoundHandler)
    else
      ReplaceAll(c, MainGuard, routes + "\n" + MainGuard)
  }

  /** The whole transformation of the content of app.py. */
  function Patched(c: string, routes: string): string
  {
    RouteStep(ConfigStep(ImportStep(c)), routes)
  }

  /**
   * The anchor the routes are inserted before: the error-handlers comment if
   * present, else the 404 handler, else the main guard, else none.
   */
  function Anchor(c: string): (a: Option<string>)
    ensures a == Some(ErrorHandlersComment) <==> Contains(c, ErrorHandlersComment)
    ensures a == Some(NotFoundHandler) <==>
      !Contains(c, ErrorHandlersComment) && Contains(c, NotFoundHandler)
    ensures a == Some(MainGuard) <==>
      !Contains(c, ErrorHandlersComment) && !Contains(c, NotFoundHandler) && Contains(c, MainGuard)
    ensures a.None? <==>
      !Contains(c, ErrorHandlersComment) && !Contains(c, NotFoundHandler) && !Contains(c, MainGuard)
    ensures a.Some? ==> Contains(c, a.value)
  {
    if Contains(c, ErrorHandlersComment) then Some(ErrorHandlersComment)
    else if Contains(c, NotFoundHandler) then Some(NotFoundHandler)
    else if Contains(c, MainGuard) then Some(MainGuard)
    else None
  }

  /**
   * What reading app.py gives: its text, the missing file that the function
   * catches, or any other failure (no permission, a directory, undecodable
   * bytes), which it does not catch.
   */
  datatype ReadResult = Read(content: string) | FileNotFound | ReadFailed

  /** How a call ends: it returns a boolean, or an exception propagates out of it. */
  datatype RunOutcome = Returned(value: bool) | Raised

  /**
   * The patcher, as the function does it: the content is read, rebound by the
   * three guarded replacements, and handed to the write, which succeeds when
   * `writeOk` holds. `newContent` is the text the write is given. A missing
   * app.py returns `False` and any other read failure propagates; in both cases
   * nothing is written.
   */
  method AddApiRoutesToApp(file: ReadResult, routes: string, writeOk: bool)
    returns (outcome: RunOutcome, newContent: Option<string>)
    ensures file.FileNotFound? ==> outcome == Returned(false) && newContent.None?
    ensures file.ReadFailed? ==> outcome == Raised && newContent.None?
    ensures file.Read? ==> newContent == Some(Patched(file.content, routes)) && outcome == Returned(writeOk)
  {
    if file.FileNotFound? {
      return Returned(false), None;
    }
    if file.ReadFailed? {
      return Raised, None;
    }
    var appContent := file.content;
    if !Contains(appContent, CorsImport) {
      appContent := ReplaceAll(appContent, FlaskImport, ImportReplacement);
    }
    if !Contains(appContent, CorsCall) {
      appContent := ReplaceAll(appContent, AppCreation, ConfigReplacement);
    }
    if !Contains(appContent, RouteGuardSingle) && !Contains(appContent, RouteGuardDouble) {
      if Contains(appContent, ErrorHandlersComment) {
        appContent := ReplaceAll(appContent, ErrorHandlersComment, routes + "\n" + ErrorHandlersComment);
      } else if Contains(appContent, NotFoundHandler) {
        appContent := ReplaceAll(appContent, NotFoundHandler, routes + "\n" + NotFoundHandler);
      } else {
        appContent := ReplaceAll(appContent, MainGuard, routes + "\n" + MainGuard);
      }
    }
    newContent := Some(appContent);
    outcome := Returned(writeOk);
  }

  // ---------------------------------------------------------------------------
  // Facts about the literals
  // ---------------------------------------------------------------------------

  /** The replacement of the import step contains the CORS import. */
  lemma ImportReplacementHasCors()
    ensures Contains(ImportReplacement, CorsImport)
  {
    var k := |FlaskImport| + 1;
    assert ImportReplacement[k..k + |CorsImport|] == CorsImport;
    assert OccursAt(ImportReplacement, CorsImport, k);
  }

  /** The replacement of the configuration step contains the CORS call. */
  lemma ConfigReplacementHasCors()
    ensures Contains(ConfigReplacement, CorsCall)
  {
    assert CorsBlock3[..|CorsCall|] == CorsCall;
    assert OccursAt(CorsBlock3, CorsCall, 0);
    ContainsExtend(CorsBlock3, CorsArgs, CorsCall);
    ContainsPrepend(CorsHead, CorsCallBlock, CorsCall);
    ContainsPrepend(AppCreation, CorsBlock, CorsCall);
  }

  /** No character 'j' appears in the method and header lists of the CORS call. */
  lemma CorsListsLacksJ()
    ensures Lacks(CorsLists, 'j')
  {
    assert Lacks(CorsBlock6, 'j') && Lacks(CorsBlock7, 'j');
    assert Lacks(CorsBlock8, 'j') && Lacks(CorsBlock9, 'j');
    LacksConcat(CorsBlock6, CorsBlock7, 'j');
    LacksConcat(CorsBlock8, CorsBlock9, 'j');
    LacksConcat(CorsMethods, CorsHeaders, 'j');
  }

  /** No character 'j' appears in the arguments of the CORS call. */
  lemma CorsArgsLacksJ()
    ensures Lacks(CorsArgs, 'j')
  {
    assert Lacks(CorsBlock4, 'j') && Lacks(CorsBlock5, 'j');
    LacksConcat(CorsBlock4, CorsBlock5, 'j');
    CorsListsLacksJ();
    LacksConcat(CorsOrigins, CorsLists, 'j');
  }

  /** No character 'j' appears in the configuration replacement. */
  lemma ConfigReplacementLacksJ()
    ensures Lacks(ConfigReplacement, 'j')
  {
    assert Lacks(CorsBlock1, 'j') && Lacks(CorsBlock2, 'j') && Lacks(CorsBlock3, 'j');
    assert Lacks(AppCreation, 'j');
    CorsArgsLacksJ();
    LacksConcat(CorsBlock1, CorsBlock2, 'j');
    LacksConcat(CorsBlock3, CorsArgs, 'j');
    LacksConcat(CorsHead, CorsCallBlock, 'j');
    LacksConcat(AppCreation, CorsBlock, 'j');
  }

  /** The configuration replacement ends with the ')' closing the CORS call. */
  lemma ConfigReplacementEnd()
    ensures ConfigReplacement[|ConfigReplacement| - 1] == ')'
  {
    assert CorsHeaders[|CorsHeaders| - 1] == CorsBlock9[|CorsBlock9| - 1] == ')';
    assert CorsLists[|CorsLists| - 1] == ')';
    assert CorsArgs[|CorsArgs| - 1] == ')';
    assert CorsCallBlock[|CorsCallBlock| - 1] == ')';
    assert CorsBlock[|CorsBlock| - 1] == ')';
  }

  /** The CORS import and the application creation cannot overlap. */
  lemma ImportAndCreationApart()
    ensures NoOverlap(CorsImport, AppCreation)
  {
    assert AppCreation[..4] == "app ";
    NoOverlapFromChars(CorsImport, AppCreation, 0, 4);
  }

  /** The characters of the Flask import line the overlap argument uses. */
  lemma FlaskImportChars()
    ensures FlaskImport[77] == 'j' && FlaskImport[|FlaskImport| - 1] == 'y'
    ensures Lacks(FlaskImport, '=') && Lacks(FlaskImport, ')')
  {
    assert FlaskImport == (FlaskImport1 + FlaskImport2) + FlaskImport3;
    assert FlaskImport[77] == FlaskImport3[26];
    assert Lacks(FlaskImport1, '=') && Lacks(FlaskImport2, '=') && Lacks(FlaskImport3, '=');
    assert Lacks(FlaskImport1, ')') && Lacks(FlaskImport2, ')') && Lacks(FlaskImport3, ')');
    LacksConcat(FlaskImport1, FlaskImport2, '=');
    LacksConcat(FlaskImport1 + FlaskImport2, FlaskImport3, '=');
    LacksConcat(FlaskImport1, FlaskImport2, ')');
    LacksConcat(FlaskImport1 + FlaskImport2, FlaskImport3, ')');
  }

  /** The configuration replacement starts with the application creation. */
  lemma ConfigReplacementStart()
    ensures ConfigReplacement[4] == '=' && ConfigReplacement[..4] == "app "
  {
    assert ConfigReplacement[..4] == AppCreation[..4];
  }

  /** The Flask import line and the configuration replacement cannot overlap. */
  lemma FlaskImportAndConfigApart()
    ensures NoOverlap(FlaskImport, ConfigReplacement)
  {
    FlaskImportChars();
    ConfigReplacementStart();
    ConfigReplacementEnd();
    ConfigReplacementLacksJ();
    NoOverlapFromChars(FlaskImport, ConfigReplacement, 77, 4);
  }

  // ---------------------------------------------------------------------------
  // The import and configuration steps
  // ---------------------------------------------------------------------------

  /**
   * After the import step the content imports CORS exactly when it did
   * before or it had a Flask import line to extend.
   */
  lemma ImportStepImports(c: string)
    ensures Contains(ImportStep(c), CorsImport) <==> Contains(c, CorsImport) || Contains(c, FlaskImport)
  {
    if !Contains(c, CorsImport) {
      if Contains(c, FlaskImport) {
        ReplaceInserts(c, FlaskImport, ImportReplacement);
        ImportReplacementHasCors();
        ContainsTransitive(ImportStep(c), ImportReplacement, CorsImport);
      } else {
        ReplaceAbsent(c, FlaskImport, ImportReplacement);
      }
    }
  }

  /** Content that already imports CORS, or has no Flask import line, is left alone. */
  lemma ImportStepUnchanged(c: string)
    ensures Contains(c, CorsImport) || !Contains(c, FlaskImport) ==> ImportStep(c) == c
  {
    if !Contains(c, CorsImport) && !Contains(c, FlaskImport) {
      ReplaceAbsent(c, FlaskImport, ImportReplacement);
    }
  }

  /** Running the import step twice is running it once. */
  lemma ImportStepIdempotent(c: string)
    ensures ImportStep(ImportStep(c)) == ImportStep(c)
  {
    ImportStepImports(c);
    ImportStepUnchanged(c);
  }

  /**
   * After the configuration step the content calls CORS exactly when it did
   * before or it had an application creation to extend.
   */
  lemma ConfigStepConfigures(c: string)
    ensures Contains(ConfigStep(c), CorsCall) <==> Contains(c, CorsCall) || Contains(c, AppCreation)
  {
    if !Contains(c, CorsCall) {
      if Contains(c, AppCreation) {
        ReplaceInserts(c, AppCreation, ConfigReplacement);
        ConfigReplacementHasCors();
        ContainsTransitive(ConfigStep(c), ConfigReplacement, CorsCall);
      } else {
        ReplaceAbsent(c, AppCreation, ConfigReplacement);
      }
    }
  }

  /** Content that already calls CORS, or never creates the application, is left alone. */
  lemma ConfigStepUnchanged(c: string)
    ensures Contains(c, CorsCall) || !Contains(c, AppCreation) ==> ConfigStep(c) == c
  {
    if !Contains(c, CorsCall) && !Contains(c, AppCreation) {
      ReplaceAbsent(c, AppCreation, ConfigReplacement);
    }
  }

  /** Running the configuration step twice is running it once. */
  lemma ConfigStepIdempotent(c: string)
    ensures ConfigStep(ConfigStep(c)) == ConfigStep(c)
  {
    ConfigStepConfigures(c);
    ConfigStepUnchanged(c);
  }

  /** The configuration step keeps an existing CORS import. */
  lemma ConfigStepKeepsImport(c: string)
    ensures Contains(c, CorsImport) ==> Contains(ConfigStep(c), CorsImport)
  {
    if Contains(c, CorsImport) && !Contains(c, CorsCall) {
      ImportAndCreationApart();
      ReplacePreserves(c, CorsImport, AppCreation, ConfigReplacement);
    }
  }

  /** The configuration step never creates a Flask import line. */
  lemma ConfigStepAddsNoImportLine(c: string)
    ensures !Contains(c, FlaskImport) ==> !Contains(ConfigStep(c), FlaskImport)
  {
    if !Contains(c, FlaskImport) && !Contains(c, CorsCall) {
      FlaskImportAndConfigApart();
      ReplaceCreatesNothing(c, FlaskImport, AppCreation, ConfigReplacement);
    }
  }

  /** Running the import and configuration steps twice is running them once. */
  lemma ImportConfigIdempotent(c: string)
    ensures ConfigStep(ImportStep(ConfigStep(ImportStep(c)))) == ConfigStep(ImportStep(c))
  {
    var c1 := ImportStep(c);
    var c2 := ConfigStep(c1);
    ImportStepImports(c);
    ImportStepUnchanged(c);
    ConfigStepKeepsImport(c1);
    ConfigStepAddsNoImportLine(c1);
    ImportStepUnchanged(c2);
    ConfigStepIdempotent(c1);
  }

  // ---------------------------------------------------------------------------
  // The route step
  // ---------------------------------------------------------------------------

  /** Content that already declares the projects route, or has no anchor, is left alone. */
  lemma RouteStepUnchanged(c: string, routes: string)
    ensures HasProjectsRoute(c) || Anchor(c).None? ==> RouteStep(c, routes) == c
  {
    if !HasProjectsRoute(c) && Anchor(c).None? {
      ReplaceAbsent(c, MainGuard, routes + "\n" + MainGuard);
    }
  }

  /** The route step replaces exactly the preferred anchor. */
  lemma RouteStepUsesAnchor(c: string, routes: string)
    requires !HasProjectsRoute(c) && Anchor(c).Some?
    ensures RouteStep(c, routes) == ReplaceAll(c, Anchor(c).value, routes + "\n" + Anchor(c).value)
  {
  }

  /** Replacing starts by copying the text before the first occurrence and inserting `r`. */
  lemma ReplaceFirstPrefix(c: string, a: string, r: string)
    requires |a| > 0 && Contains(c, a)
    ensures StartsWith(ReplaceAll(c, a, r), c[..IndexOf(c, a).value] + r)
  {
    var i := IndexOf(c, a).value;
    ReplaceAtFirst(c, a, r, i);
    var pre := c[..i] + r;
    assert ReplaceAll(c, a, r)[..|pre|] == pre;
  }

  /**
   * Without the projects route, the routes go in right before the first
   * occurrence of the preferred anchor, and the content up to that anchor is
   * kept as it was.
   */
  lemma RouteStepInsertsBefore(c: string, routes: string)
    requires !HasProjectsRoute(c) && Anchor(c).Some?
    ensures var a := Anchor(c).value; var i := IndexOf(c, a).value;
      StartsWith(RouteStep(c, routes), c[..i] + routes + "\n" + a)
  {
    var a := Anchor(c).value;
    RouteStepUsesAnchor(c, routes);
    assert |a| > 0;
    InsertBeforeFirst(c, a, routes);
  }

  /** Putting `routes` and a line break in front of every `a` starts with them in front of the first. */
  lemma InsertBeforeFirst(c: string, a: string, routes: string)
    requires |a| > 0 && Contains(c, a)
    ensures StartsWith(ReplaceAll(c, a, routes + "\n" + a), c[..IndexOf(c, a).value] + routes + "\n" + a)
  {
    var pre := c[..IndexOf(c, a).value];
    ReplaceFirstPrefix(c, a, routes + "\n" + a);
    Reassociate(pre, routes, "\n", a);
  }

  lemma Reassociate(x: string, y: string, z: string, w: string)
    ensures x + ((y + z) + w) == ((x + y) + z) + w
  {
  }

  /** The decorator of the first route the block inserts, without its '@'. */
  const DecoratorTail1: string := "app.route('/api/projects', "
  const DecoratorTail2: string := "methods=['GET', 'OPTIONS'])"

  /** The first line of the inserted route block, with a line break on each side. */
  const RouteBlockHead: string := "\n@" + DecoratorLine + "\n"

  /** The decorator the inserted block opens with, after its '@'. */
  const DecoratorLine: string := DecoratorTail1 + DecoratorTail2

  /** Text holding a single '@' followed by the inserted decorator has no projects-route guard. */
  lemma InsertedDecoratorNotGuard(p: string, q: string)
    requires Lacks(p, '@') && Lacks(q, '@') && StartsWith(q, DecoratorTail1)
    ensures !HasProjectsRoute(p + "@" + q)
  {
    var s := p + "@" + q;
    assert s[|p| + 26] == q[25] == ',';
    assert s[|p| + 11] == q[10] == '\'';
    forall j: nat | j <= |s|
      ensures !OccursAt(s, RouteGuardSingle, j) && !OccursAt(s, RouteGuardDouble, j)
    {
      if j == |p| {
        MismatchAt(s, RouteGuardSingle, j, 26);
        MismatchAt(s, RouteGuardDouble, j, 11);
      } else {
        if j < |p| {
          assert s[j] == p[j];
        } else if j < |s| {
          assert s[j] == q[j - |p| - 1];
        }
        MismatchAt(s, RouteGuardSingle, j, 0);
        MismatchAt(s, RouteGuardDouble, j, 0);
      }
    }
  }

  /** The route block head has no '#'. */
  lemma RouteBlockHeadLacksHash()
    ensures Lacks(RouteBlockHead + "\n", '#')
  {
    assert Lacks("\n@", '#') && Lacks(DecoratorTail1, '#') && Lacks(DecoratorTail2, '#') && Lacks("\n", '#');
    LacksConcat(DecoratorTail1, DecoratorTail2, '#');
    LacksConcat("\n@", DecoratorLine, '#');
    LacksConcat("\n@" + DecoratorLine, "\n", '#');
    LacksConcat(RouteBlockHead, "\n", '#');
  }

  /** On the bare error-handlers comment, the route step puts the block in front of it. */
  lemma RouteStepOnComment()
    ensures RouteStep(ErrorHandlersComment, RouteBlockHead) == RouteBlockHead + "\n" + ErrorHandlersComment
  {
    var c := ErrorHandlersComment;
    assert Lacks(c, '@');
    LacksExcludes(c, RouteGuardSingle, 0);
    LacksExcludes(c, RouteGuardDouble, 0);
    assert OccursAt(c, c, 0);
    ReplaceAtStart(c, c, RouteBlockHead + "\n" + c);
    assert c[|c|..] == [];
  }

  /** The text after the '@' of the inserted block. */
  const AfterAt: string := DecoratorLine + "\n\n" + ErrorHandlersComment

  /** The text after the '@' holds no further '@'. */
  lemma AfterAtLacksAt()
    ensures Lacks(AfterAt, '@') && StartsWith(AfterAt, DecoratorTail1)
  {
    assert Lacks(DecoratorTail1, '@') && Lacks(DecoratorTail2, '@');
    assert Lacks("\n\n", '@') && Lacks(ErrorHandlersComment, '@');
    LacksConcat(DecoratorTail1, DecoratorTail2, '@');
    LacksConcat(DecoratorLine, "\n\n", '@');
    LacksConcat(DecoratorLine + "\n\n", ErrorHandlersComment, '@');
    assert AfterAt[..|DecoratorTail1|] == DecoratorTail1;
  }

  lemma Regroup(a: string, b: string, c: string, d: string, e: string)
    ensures (((a + b) + c) + d) + e == a + ((b + (c + d)) + e)
  {
  }

  /** The inserted block followed by the comment, cut at its '@'. */
  lemma InsertedBlockShape()
    ensures RouteBlockHead + "\n" + ErrorHandlersComment == "\n" + "@" + AfterAt
  {
    Regroup("\n@", DecoratorLine, "\n", "\n", ErrorHandlersComment);
    assert "\n" + "\n" == "\n\n";
    assert "\n" + "@" == "\n@";
  }

  /** The inserted block is not recognised as the projects route. */
  lemma InsertedBlockNotRecognised()
    ensures !HasProjectsRoute(RouteBlockHead + "\n" + ErrorHandlersComment)
  {
    InsertedBlockShape();
    AfterAtLacksAt();
    InsertedDecoratorNotGuard("\n", AfterAt);
  }

  /** After the block, the first error-handlers comment is the original one. */
  lemma CommentFirstAfterBlock()
    ensures var once := RouteBlockHead + "\n" + ErrorHandlersComment;
      var i := |RouteBlockHead| + 1;
      OccursAt(once, ErrorHandlersComment, i)
      && forall j: nat :: j < i ==> !OccursAt(once, ErrorHandlersComment, j)
  {
    var c := ErrorHandlersComment;
    var once := RouteBlockHead + "\n" + c;
    var i := |RouteBlockHead| + 1;
    assert once[i..i + |c|] == c;
    RouteBlockHeadLacksHash();
    forall j: nat | j < i
      ensures !OccursAt(once, c, j)
    {
      assert once[j] == (RouteBlockHead + "\n")[j];
      MismatchAt(once, c, j, 0);
    }
  }

  /**
   * The route step is not idempotent: the block it inserts declares the
   * projects route as `@app.route('/api/projects', methods=...)`, which the
   * guard does not recognise, so a second run inserts the block again.
   */
  lemma RouteStepNotIdempotent()
    ensures var once := RouteStep(ErrorHandlersComment, RouteBlockHead);
      !HasProjectsRoute(once) && RouteStep(once, RouteBlockHead) != once
  {
    var c := ErrorHandlersComment;
    var x := RouteBlockHead + "\n" + c;
    RouteStepOnComment();
    InsertedBlockNotRecognised();
    CommentFirstAfterBlock();
    var i := |RouteBlockHead| + 1;
    assert Contains(x, c);
    ReplaceAtFirst(x, c, x, i);
    assert |ReplaceAll(x, c, x)| >= i + |x| > |x|;
  }
}
