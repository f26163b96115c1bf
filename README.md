# Alx_DjangoLearnLab — a verified model of its decision rules and record tables

Alx_DjangoLearnLab is a set of small Django projects. There is a book catalogue REST API, a blog with comments and tags, a
library app with roles and profiles, a bookshelf app with a custom user manager, sample ORM queries, and a social
API's post permission and notification inbox. Most of it is framework configuration. This project models the parts
that decide something:

- filters and orderings over querysets;
- form and serializer validation;
- access rules;
- field defaulting;
- string builders;
- the few operations that change stored rows.

All of them work on in-memory tables. The model's conventions:

- A queryset is a `seq` of records in store order.
- `filter(...)` is `Ordering.Filter`, and `order_by(...)` is `Ordering.SortBy`, a stable insertion sort by a total preorder.
- `count()` is the length of a filter.
- `icontains` is lower-casing followed by a substring test.
- `get_object_or_404` is "present, or NotFound".
- An operation that changes rows is a method of a `class` whose fields are the tables.

Modules, one per source file (plus three shared ones):

- `Wrappers`: `Option` and `Result`.
- `Text`: ASCII digits, decimal printing and parsing, lower-casing, substring tests, and Python's `str.strip`.
- `Ordering`: filter, subsequence, counting, insertion sort, and distinct keys, each with its proofs.
- `BookSerializer`, `BookApi`: the book catalogue API (advanced-api-project).
- `BlogForms`, `BlogViews`, `TagWidget`: the blog (django_blog).
- `Roles`: the library app's views and utils (`has_role`, role gates, login redirect). `RoleSignal` is its default-role
  signal. `RelationshipModels` is its models (profile path, roles, profile-creating handlers, book uniqueness).
- `UserManager`, `UserManagerVariant`, `BookshelfViews`: the bookshelf app (models.py, the variant moodels.py, views.py).
- `QuerySamples`: the django-models sample queries.
- `PostPermissions`, `Notifications`: the social API.

Clocks and request context are parameters:

- The current year is an argument of the year validator.
- Comment timestamps are supplied integers.
- The requesting user is `Option<nat>` (`None` is anonymous), or a record of the flags the rule reads.

## Model

| member | source | states |
|---|---|---|
| BookSerializer.ValidatePublicationYear | advanced-api-project/api/serializers.py:18-24 | a year is accepted iff it is at most the current year, and the accepted value is returned unchanged; otherwise the error is "publication_year cannot be in the future." |
| BookSerializer.YearAcceptanceDownwardClosed | advanced-api-project/api/serializers.py:20 | if a year is accepted, so is every earlier one |
| BookSerializer.ValidateTitle | advanced-api-project/advanced_api_project/api/models.py:15 | a title is accepted iff, trimmed, it is non-empty, at most 200 characters and free of NUL characters (the REST framework `CharField` refuses them); the trimmed value is kept |
| BookSerializer.Validate | advanced-api-project/api/serializers.py:14-24 | a payload is valid iff no field is in error, where a field is in error when it is invalid (a title that is blank, over-long or holds a NUL; a future year) or, outside a partial update, missing; the errors name exactly those fields; the valid data keep the year and the stripped title |
| BookSerializer.FutureYearRejected | advanced-api-project/api/serializers.py:20-23 | a payload with a year after the current one is invalid, with an error on publication_year |
| BookSerializer.Serialize | advanced-api-project/api/serializers.py:12 | the output carries the book's fields and, as `author`, the name of the book's author |
| BookSerializer.SerializeAll | advanced-api-project/api/serializers.py:12 | one output per book, in order, each the serialization of that book |
| BookSerializer.ApplyUpdate | advanced-api-project/api/views.py:88-95 | a (partial) update sets exactly the supplied title and year and keeps id and author |
| BookSerializer.AuthorInputIgnored | advanced-api-project/api/serializers.py:12 | validation and the update ignore any author given in the input |
| BookApi.Param | advanced-api-project/api/views.py:35-36 | a query parameter is present iff its key is in the query, and then has that value |
| BookApi.YearParam | advanced-api-project/api/views.py:36 | `publication_year` is used when present and non-empty, otherwise `year` |
| BookApi.AuthorFilterMeaning | advanced-api-project/api/views.py:37-41 | an all-digit `author` keeps exactly the books whose author id is its value; any other keeps the books whose author's name contains it ignoring case |
| BookApi.ListBooks | advanced-api-project/api/views.py:25-44 | the listing draws only on stored books |
| BookApi.ListBooksMembers | advanced-api-project/api/views.py:33-44 | a book is listed iff it is stored and meets the author criterion (when given) and the year criterion (when all digits) |
| BookApi.ListBooksIsSubsequence | advanced-api-project/api/views.py:33-44 | the listing is an order-preserving subsequence of the store |
| BookApi.ListBooksNoParams | advanced-api-project/api/views.py:33 | with no query parameters the listing is the whole store |
| BookApi.ListBooksUnfiltered | advanced-api-project/api/views.py:42 | a year that is not all digits leaves the listing unfiltered by year |
| BookApi.ListBooksFiltersCommute | advanced-api-project/api/views.py:37-43 | applying the year filter before the author filter gives the same listing |
| BookApi.BookTable.List | advanced-api-project/api/views.py:19-44 | always 200, with the serialized listing; the result does not depend on authentication, and the store is unchanged |
| BookApi.BookTable.Retrieve | advanced-api-project/api/views.py:47-52 | 200 with the book for a stored pk, 404 otherwise, for any user; nothing changes |
| BookApi.BookTable.Create | advanced-api-project/api/views.py:55-75 | 403 when anonymous; 400 with the field errors (an unknown author included) when invalid; otherwise 201, with exactly one new book appended, its author the one named; the store is unchanged on every error |
| BookApi.BookTable.Insert | advanced-api-project/api/views.py:71 | saving a new book with the next id and an existing author appends exactly that book, keeps ids unique and every author reference resolvable, and leaves the authors unchanged |
| BookApi.CreateErrors | advanced-api-project/api/views.py:63-69 | the 400 body lists the validation errors plus an author error unless exactly one author has the given name |
| BookApi.BookTable.Update | advanced-api-project/api/views.py:78-96 | 403 anonymous, 404 unknown pk, 400 invalid, all leaving the store unchanged; otherwise 200, with only that book updated, by the supplied fields, and no ownership check |
| BookApi.BookTable.Delete | advanced-api-project/api/views.py:99-104 | 403 anonymous, 404 unknown pk; otherwise 204, with exactly that book removed, the rest in order, and its pk gone |
| BookApi.CreateAsWritten | advanced-api-project/api/views.py:62-75 | as written, create never answers 201; it is a 500 exactly when the user is authenticated and the payload validates |
| BookApi.CreateAsWrittenFailsForValidBook | advanced-api-project/api/serializers.py:12 | a concrete valid payload from an authenticated user ends in the integrity error |
| BlogForms.CleanContent | django_blog/blog/forms.py:66-75 | an accepted comment is the stripped content, 1 to 5000 characters long; the only errors are "Comment cannot be empty." and "Comment is too long (max 5000 characters)." |
| BlogForms.CleanContentEmptyIff | django_blog/blog/forms.py:67-71 | "Comment cannot be empty." is the answer iff the content is missing or all whitespace |
| BlogForms.CleanContentLongIff | django_blog/blog/forms.py:73-74 | "Comment is too long" is the answer iff the stripped content exceeds 5000 characters |
| BlogForms.CleanContentField | django_blog/blog/models.py:24 | the required form field of the `TextField` passes on only the stripped content, non-empty and free of NUL; its only errors are "This field is required." and "Null characters are not allowed." |
| BlogForms.ContentFieldErrors | django_blog/blog/models.py:24 | the field passes the content iff it is present, not all whitespace and free of NUL once stripped; it answers "This field is required." iff the content is missing or all whitespace |
| BlogForms.CleanCommentForm | django_blog/blog/forms.py:52-75 | an accepted comment is the stripped content, 1 to 5000 characters long and free of NUL; `clean_content`'s own empty-comment message is never the answer, since the field refuses blank content first |
| BlogForms.CommentFormErrors | django_blog/blog/forms.py:52-75 | the comment form accepts content iff, stripped, it is non-empty, at most 5000 long and free of NUL; each refused input gets the error of the first check it fails: required (missing or all whitespace), then NUL, then length |
| BlogForms.CleanContentOfStripped | django_blog/blog/forms.py:66-75 | on text the field has already stripped, `clean_content` only applies its length limit |
| BlogForms.CommentFormIsFieldThenCleanContent | django_blog/blog/forms.py:52-75 | the form's answer is the field's error, or else `clean_content` applied to what the field passed on |
| BlogForms.CommentFormAgreesWithCleanContent | django_blog/blog/forms.py:66-75 | on content with visible characters and no NUL the form answers exactly what `clean_content` does |
| BlogForms.CleanContentIdempotent | django_blog/blog/forms.py:66-75 | cleaning an accepted comment again returns it unchanged |
| BlogForms.PaddedCommentAccepted | django_blog/blog/forms.py:69-73 | a trimmed text of 1 to 5000 characters is accepted, without the padding, whatever whitespace surrounds it |
| BlogForms.LimitIsAfterStrip | django_blog/blog/forms.py:69-74 | the length limit applies to the stripped text, not the raw input |
| BlogForms.UserTable.SaveSignup | django_blog/blog/forms.py:14-19 | the returned user carries the cleaned email; it is stored iff commit is true |
| BlogViews.PostList | django_blog/blog/views.py:87 | the post list is a permutation of the posts |
| BlogViews.PostListOrdered | django_blog/blog/views.py:87-106 | the post list is ordered by published date, newest first, holds exactly the stored posts, and has no duplicates |
| Ordering.FirstWhere | django_blog/blog/views.py:121 | a lookup (`get_object_or_404(Tag, slug=...)`, the author, library and librarian lookups) returns an element that is stored and passes the test, and finds nothing only if no stored element passes it |
| Ordering.IndexWhere | django_blog/blog/views.py:147 | a lookup by key (`get_object_or_404(Post, pk=...)`, the comment, book, profile and notification lookups) gives the position of the first stored element that passes the test, and nothing only if none passes it |
| Ordering.IndexWhereFirst | django_blog/blog/views.py:147 | no element before the one a lookup finds passes the test, so the lookup answers the first match |
| Ordering.IndexWhereIsFirstOfFilter | django_blog/blog/views.py:147 | a lookup finds the first element that the filter by the same test keeps, and finds nothing exactly when that filter is empty |
| BlogViews.PostsByTagList | django_blog/blog/views.py:114-125 | with no slug, or an empty one, all posts in list order; an unknown slug is NotFound |
| BlogViews.PostsByTagListMembers | django_blog/blog/views.py:119-123 | with a known slug, a post is listed iff it is stored and carries that tag |
| BlogViews.PostListByTag | django_blog/blog/views.py:267-271 | NotFound iff no tag has the slug; every post listed carries the tag |
| BlogViews.PostListByTagMembers | django_blog/blog/views.py:271 | with a known slug, a post is listed iff it is stored and carries that tag |
| BlogViews.PostSearch | django_blog/blog/views.py:248-258 | the search result draws only on stored posts |
| BlogViews.PostSearchNoQuery | django_blog/blog/views.py:249-252 | an absent or empty query returns all posts |
| BlogViews.PostSearchMembers | django_blog/blog/views.py:252-257 | for a non-empty query, a post is found iff the query occurs, ignoring case, in its title, its content or the name of one of its tags |
| BlogViews.PostSearchDistinct | django_blog/blog/views.py:258 | no post appears twice in the result, whatever the number of criteria or tags it matches |
| BlogViews.OwnerAccess | django_blog/blog/views.py:169-171 | in the comment views an anonymous user is sent to log in; access is granted iff the user is the comment's author (the same rule at 186-188) |
| BlogViews.PostOwnerAccess | django_blog/blog/views.py:235-237 | in the post edit and delete views nobody is sent to log in, since `handle_no_permission` is overridden (225-227, 243-245); access is granted iff the user is the post's author, and everyone else, the anonymous user included, is refused with a redirect to the post |
| BlogViews.PostAccessDiffersOnlyWhenAnonymous | django_blog/blog/views.py:225-245 | the post views and the comment views decide alike for every logged-in user; only the anonymous user is treated differently (redirected to the post, not to log in) |
| BlogViews.Blog.AddComment | django_blog/blog/views.py:146-151 | login required, then 404 for an unknown post, then the comment form's error (required, NUL, too long); otherwise exactly one comment is appended, bound to the URL's post and the requesting user, with the cleaned content, a fresh id and both timestamps set to now |
| BlogViews.Blog.SaveNew | django_blog/blog/views.py:151 | saving a comment with the next id appends exactly that comment, keeps comment ids unique and below the next id, and leaves the posts unchanged |
| BlogViews.Blog.EditComment | django_blog/blog/views.py:164-175 | an anonymous user is sent to log in; an unknown comment is 404; a logged-in user who is not the comment's author is refused (403); the author's invalid form is answered with that form's error; otherwise exactly that comment's content becomes the cleaned text and its `updated_at` the current time. Every answer but the last leaves the comments unchanged |
| BlogViews.Blog.DeleteComment | django_blog/blog/views.py:182-192 | an anonymous user is sent to log in; an unknown comment is 404; a logged-in user who is not the author is refused (403); the deletion happens iff the author asks, and removes exactly that comment |
| BlogViews.Blog.DeletePost | django_blog/blog/views.py:230-245 | an unknown pk is 404 for everybody; whoever is not the author, the anonymous user included, is redirected to the post and nothing changes; nobody is sent to log in; for the author the post is removed and its comments with it (cascade), and nothing with that post id is left |
| TagWidget.MergeAttrs | django_blog/blog/widgets.py:10-18 | without attrs the result is the two defaults; otherwise its keys are the union, the caller's values win, and the default keys the caller leaves out keep their defaults |
| TagWidget.Widget.constructor | django_blog/blog/widgets.py:10-18 | the widget's attrs are the merge of the defaults with the caller's attrs: the two defaults without attrs, otherwise the union of keys, the caller's values winning and the default keys the caller leaves out keeping their defaults |
| Roles.HasRole | advanced_features_and_security/LibraryProject/relationship_app/views.py:45-50 | holds iff the user is authenticated, has a profile, and the profile's role equals the name exactly |
| Roles.NoRoleWithoutLoginOrProfile | advanced_features_and_security/LibraryProject/relationship_app/utils.py:1-6 | an anonymous user has no role, and its profile is not consulted; a user without a profile has no role |
| Roles.ViewGate | advanced_features_and_security/LibraryProject/relationship_app/views.py:53-65 | each of the three role views renders iff `has_role` holds for its capitalised role name, and redirects to login otherwise |
| Roles.AtMostOnePage | advanced_features_and_security/LibraryProject/relationship_app/views.py:53-65 | no user is admitted to two different role views |
| Roles.StoredProfileRolesOpenNoPage | advanced_features_and_security/LibraryProject/relationship_app/models.py:52-54 | a user whose profile role is one of the stored lowercase choices is admitted to none of the role views |
| Roles.SuccessUrl | advanced_features_and_security/LibraryProject/relationship_app/views.py:107-124 | a non-empty `next` that passes the safety check wins; otherwise Admin, Librarian and Member go to their views, and anything else, a missing role included, to list_books |
| Roles.RedirectUrl | advanced_features_and_security/LibraryProject/relationship_app/views.py:109 | `get_redirect_url` gives `next` iff it is non-empty and judged safe, and "" otherwise |
| Roles.UnsafeNextIgnored | advanced_features_and_security/LibraryProject/relationship_app/views.py:109-111 | a `next` that fails the safety check is ignored: the user lands where no `next` would send them |
| Roles.SuccessUrlTotal | advanced_features_and_security/LibraryProject/relationship_app/views.py:117-124 | without a usable `next` (missing, empty or unsafe) the target is always one of the four named routes |
| Roles.AdminRedirectRefused | advanced_features_and_security/LibraryProject/relationship_app/views.py:115 | an authenticated user whose own role is "Admin" and whose profile role is the stored "admin" is sent to admin_view and refused there |
| RoleSignal.RoleAfterSignal | advanced_features_and_security/LibraryProject/relationship_app/signals.py:8-11 | a creation with an empty role yields "Member"; any other case keeps the role |
| RoleSignal.RoleAfterSignalIdempotent | advanced_features_and_security/LibraryProject/relationship_app/signals.py:9-11 | after a creation the role is non-empty, and applying the handler again changes nothing |
| RoleSignal.SetRoleKept | advanced_features_and_security/LibraryProject/relationship_app/signals.py:9 | a non-empty role is never altered |
| RoleSignal.Account.SetDefaultRole | advanced_features_and_security/LibraryProject/relationship_app/signals.py:7-11 | the handler leaves the record unchanged unless it is a creation with an empty role; then the role becomes "Member" and is saved |
| RoleSignal.Account.Save | advanced_features_and_security/LibraryProject/relationship_app/signals.py:11 | saving stores the current role and refires the handler as a non-creation, which changes nothing more |
| RelationshipModels.ProfilePicPath | advanced_features_and_security/LibraryProject/relationship_app/models.py:46-48 | the path is "profile_pics/user_", the id (or "None"), "/", then the file name |
| RelationshipModels.ProfilePicPathInjective | advanced_features_and_security/LibraryProject/relationship_app/models.py:48 | distinct (id, file name) pairs give distinct paths |
| RelationshipModels.RoleDisplay | advanced_features_and_security/LibraryProject/relationship_app/models.py:56-60 | shows admin as Admin, librarian as Librarian and member as Member |
| RelationshipModels.RoleDisplayDiffersFromValue | advanced_features_and_security/LibraryProject/relationship_app/models.py:52-60 | for every stored role, the displayed label differs from the stored value |
| RelationshipModels.ProfileString | advanced_features_and_security/LibraryProject/relationship_app/models.py:68-69 | the profile string is the username, " (", the role's display, then ")" |
| RelationshipModels.ProfileTable.CreateProfile | advanced_features_and_security/LibraryProject/relationship_app/models.py:62-63 | inserting a second profile for a user fails and changes nothing; otherwise one profile with the default role "member" is added |
| RelationshipModels.ProfileTable.UserSaved | advanced_features_and_security/LibraryProject/relationship_app/models.py:72-85 | after a user is saved, created or not, that user has exactly one profile; one with the default role is added iff none existed |
| RelationshipModels.ProfileTable.ProfileCountUnique | advanced_features_and_security/LibraryProject/relationship_app/models.py:62 | under the table's invariant no user has more than one profile |
| RelationshipModels.ProfileCountOfUnique | advanced_features_and_security/LibraryProject/relationship_app/models.py:62 | in a profile list with pairwise-distinct users, a user has exactly one profile when the lookup finds one and none otherwise |
| RelationshipModels.BookTable.Insert | advanced_features_and_security/LibraryProject/relationship_app/models.py:19-20 | a book whose (title, author) pair is taken is refused and nothing changes; otherwise it is appended; no two books share a pair |
| UserManager.SetDefault | advanced_features_and_security/LibraryProject/bookshelf/models.py:49 | `setdefault` adds the key with the value only if it is absent, and leaves every other key alone |
| UserManager.SetDefaultIdempotent | advanced_features_and_security/LibraryProject/bookshelf/models.py:57-59 | setting a default twice is the same as once |
| UserManager.UserFields | advanced_features_and_security/LibraryProject/bookshelf/models.py:49 | the role is "Member" unless the caller gave one, which is kept |
| UserManager.SuperuserFields | advanced_features_and_security/LibraryProject/bookshelf/models.py:57-59 | is_staff and is_superuser default to True and role to "Admin"; caller values are never overridden |
| UserManager.SuperuserFieldsKeepRole | advanced_features_and_security/LibraryProject/bookshelf/models.py:59-66 | after the superuser defaults, `create_user`'s own role default changes nothing, so the stored role is "Admin" or the caller's |
| UserManager.SuperuserFlagsOkIff | advanced_features_and_security/LibraryProject/bookshelf/models.py:61-64 | the superuser checks pass iff neither flag was given, or each given one is exactly True |
| UserManager.UserStore.CreateUser | advanced_features_and_security/LibraryProject/bookshelf/models.py:44-54 | an empty username raises "The Username must be set" and creates nothing; otherwise exactly one user is added, with the defaulted fields |
| UserManager.UserStore.CreateSuperuser | advanced_features_and_security/LibraryProject/bookshelf/models.py:56-66 | a flag set to anything but True raises its message and creates nothing; otherwise it delegates to `create_user`, so an empty username is refused too |
| UserManager.BookString | advanced_features_and_security/LibraryProject/bookshelf/models.py:14-15 | the book string is the title, " by ", the author, ",", the year, and a stray ")" |
| UserManager.BookStringYear | advanced_features_and_security/LibraryProject/bookshelf/models.py:15 | given the title and the author, a non-negative year is read back from the book string |
| UserManagerVariant.EmailOrEmpty | advanced_features_and_security/LibraryProject/bookshelf/moodels.py:22 | a missing or empty email is stored as "", and any other is stored as given |
| UserManagerVariant.UserStore.CreateUser | advanced_features_and_security/LibraryProject/bookshelf/moodels.py:12-25 | an empty username raises and creates nothing; otherwise exactly one user is added, with the email defaulted and the role defaulted to "Member" |
| UserManagerVariant.UserStore.CreateSuperuser | advanced_features_and_security/LibraryProject/bookshelf/moodels.py:27-43 | the same defaults and True checks as the main manager; on success it delegates with the email passed through |
| UserManagerVariant.ProfilePicPath | advanced_features_and_security/LibraryProject/bookshelf/moodels.py:7-8 | the path is "profile_pics/", the username, "/", then the file name |
| UserManagerVariant.ProfilePicPathInjective | advanced_features_and_security/LibraryProject/bookshelf/moodels.py:8 | for usernames without "/", distinct (username, file name) pairs give distinct paths |
| UserManagerVariant.BookString | advanced_features_and_security/LibraryProject/bookshelf/moodels.py:68-69 | the book string is the title, " by ", the author, ", ", then the year |
| UserManagerVariant.BookStringYear | advanced_features_and_security/LibraryProject/bookshelf/moodels.py:69 | given the title and the author, a non-negative year is read back from the book string |
| BookshelfViews.CleanQuery | advanced_features_and_security/LibraryProject/bookshelf/views.py:24-25 | the form is valid iff the stripped query is non-empty, at most 100 long and free of NUL; the cleaned value is the stripped query |
| BookshelfViews.SearchBooks | advanced_features_and_security/LibraryProject/bookshelf/views.py:28-36 | an invalid form finds no books; a valid one finds a subsequence of the store |
| BookshelfViews.SearchBooksMembers | advanced_features_and_security/LibraryProject/bookshelf/views.py:29-33 | a book is found iff the form is valid and its title contains the cleaned query, ignoring case |
| BookshelfViews.LongQueryFindsNothing | advanced_features_and_security/LibraryProject/bookshelf/views.py:25 | a query longer than 100 characters after stripping finds nothing |
| BookshelfViews.PaddedQuerySameResult | advanced_features_and_security/LibraryProject/bookshelf/views.py:32 | surrounding whitespace does not change the result |
| BookshelfViews.RequiredPermission | advanced_features_and_security/LibraryProject/bookshelf/views.py:40-65 | add, edit and delete require can_create, can_edit and can_delete |
| BookshelfViews.PermissionsDistinct | advanced_features_and_security/LibraryProject/bookshelf/views.py:40-65 | no two editing views share a permission |
| BookshelfViews.Shelf.Delete | advanced_features_and_security/LibraryProject/bookshelf/views.py:65-71 | without can_delete, a redirect to login; an unknown pk is 404; a POST removes exactly that book; any other method shows the confirmation and changes nothing |
| BookshelfViews.SecureView | advanced_features_and_security/LibraryProject/bookshelf/views.py:10-15 | every response carries the same fixed Content-Security-Policy header |
| QuerySamples.BooksByAuthor | django-models/LibraryProject/relationship_app/query_samples1.py:23-29 | any other argument kind raises the ValueError; otherwise the result is a subsequence of the books |
| QuerySamples.BooksByAuthorMembers | django-models/LibraryProject/relationship_app/query_samples1.py:23-28 | a book is selected iff its author is the given one, has the given id, or has exactly the given name |
| QuerySamples.InstanceSameAsPk | django-models/LibraryProject/relationship_app/query_samples1.py:23-26 | passing an author or its key gives the same books |
| QuerySamples.UniqueNameSameAsPk | django-models/LibraryProject/relationship_app/query_samples1.py:26-28 | a name carried by exactly one author gives that author's books |
| QuerySamples.LookupLibrary | django-models/LibraryProject/relationship_app/query_samples1.py:45-56 | an instance is used as is; a pk or name finds the matching library or nothing; a name shared by several libraries escapes as MultipleObjectsReturned; another kind raises the ValueError |
| QuerySamples.AllBooksInLibrary | django-models/LibraryProject/relationship_app/query_samples1.py:32-59 | no library gives no books; the lookup errors pass through unconverted; otherwise a subsequence of the books |
| QuerySamples.AllBooksInLibraryMembers | django-models/LibraryProject/relationship_app/query_samples1.py:58-59 | a found library yields exactly the books related to it |
| QuerySamples.LibrarianForLibrary | django-models/LibraryProject/relationship_app/query_samples1.py:62-91 | None when the library is missing or has no librarian; otherwise its librarian; the same errors as the library lookup |
| QuerySamples.UnknownLibraryName | django-models/LibraryProject/relationship_app/query_samples1.py:51 | a name that no library carries exactly finds no books and no librarian |
| PostPermissions.HasObjectPermission | social_media_api/posts/permissions.py:5-12 | GET, HEAD and OPTIONS are always allowed; any other method iff the user is the author |
| PostPermissions.AuthorAlwaysAllowed | social_media_api/posts/permissions.py:8-12 | the author may use every method |
| PostPermissions.UnsafeMethodsAlike | social_media_api/posts/permissions.py:12 | for methods that are not safe, the answer does not depend on the method |
| PostPermissions.TraceIsNotSafe | social_media_api/posts/permissions.py:8 | TRACE is treated as a write: only the author may send it |
| Notifications.UnreadThenNewestIsTotal | social_media_api/notifications/views.py:17-19 | ordering by read flag then newest timestamp is a total preorder |
| Notifications.Inbox | social_media_api/notifications/views.py:14-19 | the inbox is a permutation of the user's notifications |
| Notifications.InboxProperties | social_media_api/notifications/views.py:15-19 | the inbox holds exactly the user's notifications, every unread one before every read one, newer before older within each group |
| Notifications.UnreadListProperties | social_media_api/notifications/views.py:21-27 | the unread list holds exactly the user's unread notifications, newest first |
| Notifications.UnreadCountIsUnreadLength | social_media_api/notifications/views.py:29-33 | the unread count is the length of the unread list |
| Notifications.UnreadCountIsPending | social_media_api/notifications/views.py:32 | the unread count is the number of the user's stored notifications that are unread |
| Notifications.MarkedRead | social_media_api/notifications/views.py:38 | marking sets is_read on that one notification, and every other notification is unchanged |
| Notifications.MarkedReadIdempotent | social_media_api/notifications/views.py:37-39 | marking twice is the same as once |
| Notifications.MarkedReadCount | social_media_api/notifications/views.py:32-39 | marking one of the user's unread notifications lowers the unread count by exactly one; marking a read one leaves it |
| Notifications.NotificationTable.MarkRead | social_media_api/notifications/views.py:35-40 | anonymous requests are refused; a notification that is not the user's is NotFound; otherwise exactly that notification becomes read and nothing else changes |

## Left out

- URL routing, templates, `render`/`redirect`, flash messages and pagination (`paginate_by = 10`) are framework I/O with no rule of their own. The model returns what a view decides, not the HTML.
- Authentication, password hashing (`set_password`), tokens and JWT are left out. Passwords are opaque strings, and users are identifiers or flag records.
- The clock is a parameter. `datetime.date.today().year` is an argument, and `auto_now` timestamps are supplied integers.
- Image uploads, storage, and ORM query optimisation are left out.
- `Text.IsDigits`: accepts ASCII digits only, where Python's `isdigit` also accepts other Unicode digits.
- `Text.Lower`: folds ASCII letters only, which is what an SQLite `LIKE` does; other databases may fold more.
- `BookSerializer.Validate`: takes the year as an integer. A string payload that is not an integer (a DRF "A valid integer is required." error) is not modelled.
- Database integer ranges are not modelled; integers are unbounded.
- `BlogViews.PostList`: the order among posts with equal published dates is left to the database by the source. The model fixes a stable order, so its statements about that order are stronger than the source guarantees.
- `Notifications.Inbox`: the same holds for notifications with equal read flags and timestamps.
- `Notifications.UnreadList`: its defining function carries no contract of its own. What it states is proved in the lemma `UnreadListProperties`.
- The advanced-api-project create, update and delete answer 403 to anonymous requests, matching the project's tests. DRF returns 401 instead when an authentication class with a challenge header is configured, and the settings are not part of this model.
- Behaviour asserted by the API tests but not implemented by the views is not modelled. This covers title ordering, `?title=`, `?author__name=`, `?search=` and `?ordering=`.
- The blog post create and update views only save a form (`PostCreateView`, `PostUpdateView`) and are not modelled. The update view's ownership check and its answer to an anonymous user are those of the delete view, `BlogViews.PostOwnerAccess`.
- The comment list in `get_context_data` (views.py:137,160) is display ordering only.
- The blog `Post` model in blog/models.py declares no `tags` field, though the views filter on `tags`. The model gives posts a set of tag ids, as a tagging field (django-taggit) would.
- The library app's add, edit and delete views are the same permission-plus-form glue as the bookshelf's. They are represented by `BookshelfViews.Shelf.Delete` and `BookshelfViews.RequiredPermission`.
- The one-line role views and permission wrappers in other files are left out; their rule is `Roles.HasRole`.
- `CustomUser.__str__` in bookshelf/models.py:35-36 is left out.
- In moodels.py:59-60 the method is misspelt `_str_`, so it is never used as the string form. It is not modelled.
- bookshelf/models.py imports `CustomUserManager` from itself (line 5), which would fail at import time. The model takes the manager as defined in the same file.
- In serializers.py, line 28 is indented one space deeper than its class body (line 37). As printed, that is an indentation error. The model takes the evident nesting, so `AuthorSerializer` is not modelled beyond what `BookSerializer` does.
- `QuerySamples.LookupLibrary`: a `get(pk=...)` with an integer key never finds two rows. `Library.objects.get(name=...)` on a shared name escapes as `MultipleObjectsReturned`, modelled as an error value rather than excluded by a precondition.
- Python edge cases such as `bool` passing `isinstance(x, int)` are represented by distinct argument constructors.
- Likes, follow and unfollow, and the feed are left out. The like constraint is declarative, the follow views are not shown, and the feed relies on a related name that the user model does not define.
- Usernames, emails and ids are not checked for uniqueness by the user managers; the database constraint is not modelled.
- `Roles.RedirectUrl`: whether `next` is safe (`url_has_allowed_host_and_scheme`: the allowed hosts, the scheme, https) is not computed. It is an argument. `next` is read from the request as one value, and the POST-before-GET precedence is not modelled.
- relationship_app/views.py:5 and signals.py:4 import `CustomUser` from relationship_app/models.py, which defines no such class (its classes are at lines 8-51), so both imports would fail at import time. The model takes the user as the record each rule reads.
- The ghost `saves` counter of `RoleSignal.Account` records how often the row is written. It is not a field of the source.

## Findings

| source | as written | input that shows it | evidently intended | confidence | as-written member | corrected member |
|---|---|---|---|---|---|---|
| advanced-api-project/api/serializers.py:12 | `author` is a read-only field, so a create saves a book without an author. `Book.author` is a required foreign key (advanced_api_project/api/models.py:16), so every valid create fails with an integrity error (500). | An authenticated POST of title "Brave New World", publication_year 1932, author "George Orwell", in 2025 | A writable author, resolved by name: 201 with exactly one book added, and 400 when no author has that name | not executed | BookApi.CreateAsWritten, BookApi.CreateAsWrittenFailsForValidBook | BookApi.BookTable.Create |
