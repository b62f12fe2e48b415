# Article controller of the Xedium blogging backend, in Dafny

This project models the article controller of a small NestJS blogging API,
together with the field rules of its `CreateArticleDto`.

- `file_filter.dfy`, module `FileFilter`. This is the upload filter for
  cover images. It takes the extension of the uploaded file's original name,
  meaning the suffix from the last `'.'` on. When the name has no `'.'`,
  JavaScript clamps the `-1` from `lastIndexOf` to 0, so the whole name is
  the extension. The filter lower-cases the extension and accepts it only if
  it is `.jpg` or `.png`. A rejection names the extension as written.
- `create_article_dto.dfy`, module `ArticleDto`. These are the constraints on
  the request payload, whose fields arrive untyped:
  - `title` is a string of 3 to 100 characters;
  - `body` is a string of 10 to 2000 characters;
  - `author` is an integer.
  
  `Violations` lists every failed constraint with its message.
- `article_controller.dfy`, module `Articles`. This holds the seven handlers
  as methods of the class `ArticleController`. The ORM-backed services become
  two map fields, `articles` and `comments`, each keyed by id. Each map has an
  auto-increment counter. The authenticated user, the stored file name and
  the upload's original name are parameters. Each handler returns one of:
  - `Ok(data)`;
  - the exception it throws, as `NotFound(id)`, `Unauthorized(userId)` or
    `BadRequest(ext)`.

  The handlers check a missing resource (NotFound) before ownership
  (Unauthorized). A refused request leaves the store unchanged. A successful
  update changes only the fields the source assigns. Three client methods,
  `ClientRun`, `CommentListingRun` and `CommentEditRun`, exercise the
  handlers. They cover reading versus updating a missing article, the author
  taken from the session, an update refused to a non-owner, a new comment
  missing from its article's list, and a comment edit refused to anyone but
  its author. Their assertions follow from the handlers' contracts.

## Model

| member | source | states |
|---|---|---|
| `FileFilter.LastIndexOf` | src/article/article.controller.ts:67-69 | the result is -1 exactly when the character is absent; otherwise it is an index holding the character, with no occurrence after it |
| `FileFilter.Extension` | src/article/article.controller.ts:67-69 | with a '.', the extension is a non-empty suffix of the name that starts with '.' and has no other '.'; without one, it is the whole name (`Substring` clamps the -1 start to 0, as JavaScript's `substring` does) |
| `FileFilter.Filter` | src/article/article.controller.ts:61-82 | the filter either accepts, or rejects carrying the extension exactly as computed (not lower-cased); the comparison uses `ToLowerCase`, which maps each character through `LowerChar` |
| `FileFilter.FilterAcceptsExactlyAllowedSuffixes` | src/article/article.controller.ts:66-71 | a name is accepted if and only if its last four characters, lower-cased, are ".jpg" or ".png" |
| `FileFilter.AcceptedHasAllowedSuffix` | src/article/article.controller.ts:66-71 | every accepted name ends in an allowed suffix, in any case |
| `FileFilter.AllowedSuffixAccepted` | src/article/article.controller.ts:66-71 | every name ending in an allowed suffix, in any case, is accepted |
| `FileFilter.AllowedShape` | src/article/article.controller.ts:66-70 | a text whose lower-cased form is an allowed type is four characters long, starts with '.' and has no other '.' |
| `FileFilter.AllowedExtensionSuffix` | src/article/article.controller.ts:66-71 | any prefix followed by an extension that lower-cases to ".jpg" or ".png" ends in an allowed suffix |
| `FileFilter.NoDotRejectsWholeName` | src/article/article.controller.ts:67-80 | a name without '.' is always rejected, and the rejection names the whole file name |
| `FileFilter.UpperCaseExtensionAccepted` | src/article/article.controller.ts:66-71 | "photo.JPG" is accepted |
| `FileFilter.LowerCaseExtensionAccepted` | src/article/article.controller.ts:66-71 | "photo.jpg" is accepted |
| `FileFilter.DoubleExtensionAccepted` | src/article/article.controller.ts:66-71 | "a.tar.png" is accepted: only the text after the last '.' counts |
| `FileFilter.GifRejected` | src/article/article.controller.ts:66-80 | "x.GIF" is rejected, and the rejection names ".GIF" in its original case |
| `ArticleDto.Violations` | src/article/dtos/create-article.dto.ts:3-14 | the violation list is empty exactly when title, body and author are all valid; every listed violation is a declared constraint that fails, with that constraint's message; every declared constraint that fails is listed |
| `ArticleDto.BodyTooLongReportedAsTooShort` | src/article/dtos/create-article.dto.ts:8-10 | a body over 2000 characters is invalid and reported with the message "body is too short" |
| `ArticleDto.AuthorOnlyViolation` | src/article/dtos/create-article.dto.ts:12-13 | with a valid title and body, the validator reports exactly one violation, the author's IsInt failure, if and only if the author is not an integer |
| `ArticleDto.AuthorExamples` | src/article/dtos/create-article.dto.ts:12-13 | examples: author 7 passes with no violations; 2.5 and the string "7" each give only the IsInt violation |
| `Articles.AddUnlinkedComment` | src/article/article.controller.ts:139-146 | storing a comment under a fresh id, with no link to article a, leaves a's comment set unchanged |
| `Articles.AddLinkedComment` | src/article/article.controller.ts:139-146 | storing a comment linked to article a under a fresh id adds exactly that comment to a's comment set |
| `Articles.ArticleController.GetAll` | src/article/article.controller.ts:42-47 | returns exactly the stored articles, each once, in ascending id order |
| `Articles.ArticleController.GetArticle` | src/article/article.controller.ts:48-56 | returns the article as a one-element list, or an empty list for a missing id; it never reports NotFound |
| `Articles.ArticleController.Create` | src/article/article.controller.ts:57-100 | a disallowed extension gives BadRequest with that extension and stores nothing. Otherwise it stores, under a fresh id, an article whose author is the acting user's id and whose cover image is the stored file name, ignoring the request's author; it returns that article |
| `Articles.ArticleController.Update` | src/article/article.controller.ts:101-125 | a missing id gives NotFound for every user; a non-owner gets Unauthorized; both leave the store unchanged. The owner gets Ok(1), and only that article's title and body change (author, cover image and all other articles are kept) |
| `Articles.ArticleController.CreateComment` | src/article/article.controller.ts:126-148 | a missing article gives NotFound and stores nothing. Otherwise it stores a comment by the acting user under a fresh id, with its article link undefined, so the article's comment set is unchanged |
| `Articles.ArticleController.CreateCommentLinked` | src/article/article.controller.ts:126-148 | as CreateComment, but the comment is linked to the article and joins exactly its comment set |
| `Articles.ArticleController.UpdateComment` | src/article/article.controller.ts:149-177 | checks in order: article exists (else NotFound(id)), comment exists (else NotFound(commentId)), acting user is the comment's author (else Unauthorized); failures change nothing. On success only that comment's body changes, keeping its id, link and user; the comment need not belong to the article |
| `Articles.ArticleController.GetComments` | src/article/article.controller.ts:178-191 | a missing article gives NotFound; otherwise it returns exactly the comments linked to that article, in ascending id order |

## Findings

| source | as written | input that shows it | evidently intended | confidence | as-written member | corrected member |
|---|---|---|---|---|---|---|
| src/article/article.controller.ts:142 | The comment's `article` is `await this.getArticle(id)[0]`. This indexes the Promise that `getArticle` returns, before awaiting it, so the value is `undefined`. Even an awaited `{data}` object has no `[0]`. | POST /article/1/comment on an existing article 1, then GET /article/1/comment: the new comment is not in the list | the new comment is linked to article `id` and appears in that article's comment list | not executed; follows from the code, assuming the relation column accepts null | `Articles.ArticleController.CreateComment` | `Articles.ArticleController.CreateCommentLinked` |

`CreateComment` keeps the code as written. Its postcondition says that the
article's comment set does not change. `CommentListingRun` shows a freshly
created comment missing from `GetComments`. `CreateCommentLinked` sets the
link, and its postcondition adds the comment to that set.

## Left out

- NestJS decorators, routing, HTTP status codes and response envelopes (`{data}`, `{message, ...}`). Each handler returns only the result tag and its payload. `ParseIntPipe` is framework behaviour, so ids are already integers.
- The exact exception messages. Only the payloads are kept: the id, the acting user's id, and the rejected extension.
- `AuthGuard`. The authenticated user is an explicit `User {id, username}` parameter. Requests without a valid session never reach the handlers, so they are not modelled.
- `appService.writeFileToDisk`, which is disk I/O. The file name it returns is a parameter. A request with no uploaded file is not modelled. Neither is a file left on disk when the database write fails.
- The TypeORM services are not part of this model. `findAll` and `findArticleComments` are modelled as returning rows in ascending id order, which is insertion order under auto-increment ids. Created and updated timestamps are not modelled.
- `Articles.ArticleController.Update`: the `updateArticle` service is not shown. The model assumes it applies only `title` and `body`, and reports 1 affected row. The 0-row case only arises from a concurrent delete.
- `Articles.ArticleController.Create`: the model assumes the `createArticle` service returns the one stored article as a list.
- `userService.findOneByUsername` is modelled as returning the acting user.
- `async`/`await` and the race between the existence check and the write. Each handler is modelled as one atomic step.
- `FileFilter.Filter`: `toLowerCase` is modelled for ASCII letters only. No other character lower-cases to '.', 'j', 'p', 'g' or 'n', so the accept/reject decision is unaffected.
- `ArticleDto.Violations`: lengths are counted in Unicode characters, as the validator does, except that the validator's `isLength` also leaves out the U+FE0E and U+FE0F variation selectors; the model counts them. Numbers are mathematical reals, so NaN and the infinities are not modelled. The IsString and IsInt messages are the validator's defaults.
- Where the DTO rules are enforced is not modelled. That depends on a validation pipe configured outside the controller. The handlers take the typed request `ArticleRequest`.
- The controller assigns `author` and `cover_image` into the DTO at lines 95-96. The model follows the runtime effect of those assignments. It ignores that the class declares `author` read-only and has no `cover_image` field.
