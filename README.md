# Agrojob in Dafny

Agrojob is an ASP.NET Core job board for the agricultural sector. Employers
run companies, publish vacancies with requirements, offers and tags, and
review the applications job seekers send. Job seekers keep resumes, apply to
vacancies and follow their applications. This project models the board's
core in Dafny and proves what it promises:

- the store (`Store`, `Tables`): the Entity Framework context as one table per
  entity set. Each table is a sequence of keyed rows, and one identity counter
  issues the keys. `Consistent` holds the context's keys, unique indexes and
  foreign keys, and every operation that changes the store keeps it. A delete
  follows each relation's delete rule (restrict, cascade or set null).
- the generic repository (`Tables`): get by key, find, first, exists, count,
  add, add range, update and delete;
- the repositories (`ApplicationRepository`, `CompanyRepository`,
  `VacancyRepository`, `RequirementRepository`, `OfferRepository`,
  `TagRepository`, `ResumeRepository`): their queries as functions over the
  tables, and their updates as methods on the store;
- the Razor page models: `Index`, `Vacancies`, `VacancyDetail`, the employer's
  and the employee's menus (both the employee management menu and the
  top-level employee start page with its counters), and the company, vacancy, resume and
  application management pages. Each page is a class holding the page's
  bound properties, and each handler is a method that reads or changes the
  store and ends in a response (`Page`, a redirect with a notice,
  `NotFound`, `Forbid`, `Challenge`);
- the database initializer (`DbSeed`): seeding categories, locations and
  tags, the tag lookup by name and the clearing order;
- the helpers around them: the application status enumeration and its
  display tables (`Statuses`), paging (`Paging`), trimming and case folding
  (`Text`), filtering, flattening, sorting and taking (`Seqs`).

The signed-in user, the clock and the identity store's profiles are
parameters of the handlers. Keys are unbounded integers, and dates are
integers (ticks).

## Model

| member | source | states |
|---|---|---|
| Tables.GetById | Argojob/Repositories/Base/Repository.cs:22-25 | finds a record exactly when its key is stored, and what it finds is stored under that key |
| Tables.GetStored | Argojob/Repositories/Base/Repository.cs:22-25 | in a keyed table the stored record is the one found for its key |
| Tables.Where | Argojob/Repositories/Base/Repository.cs:32-35 | the result holds exactly the rows whose record satisfies the predicate, is no longer than the table and keeps key order |
| Tables.FirstWhere | Argojob/Repositories/Base/Repository.cs:37-40 | the position found satisfies the predicate and no earlier row does; none is found only when no row does |
| Tables.Any | Argojob/Repositories/Base/Repository.cs:42-45 | true exactly when some stored record satisfies the predicate, which is when the filtered count is positive |
| Tables.CountWhere | Argojob/Repositories/Base/Repository.cs:47-52 | without a predicate the table size, with one the length of the filtered list; never more than the table size |
| Tables.CountRows | Argojob/Repositories/Base/Repository.cs:47-52 | the count equals the length of the filtered list |
| Tables.AddKeyed | Argojob/Repositories/Base/Repository.cs:54-67 | a record added under the next identity value gets a key not used before, and the table stays keyed |
| Tables.AddRange | Argojob/Repositories/Base/Repository.cs:69-87 | the records are stored in order under consecutive new keys and the keys are returned, one per record in input order; the rows already there are kept |
| Tables.Replace | Argojob/Repositories/Base/Repository.cs:89-94 | the updated row keeps its key and position and takes the new record; every other row is unchanged |
| Tables.ReplaceKeyed | Argojob/Repositories/Base/Repository.cs:89-94 | an update keeps the table keyed under the same set of keys |
| Tables.ReplaceLookup | Argojob/Repositories/Base/Repository.cs:89-94 | after an update the key finds the new record and every other key finds what it found before |
| Tables.RemoveKeyed | Argojob/Repositories/Base/Repository.cs:96-105 | removing one row removes exactly that row and its key and keeps the table keyed |
| Tables.Delete | Argojob/Repositories/Base/Repository.cs:96-105 | false and no change exactly when the key is missing; otherwise one row fewer, every row with another key kept, and the table still keyed |
| Paging.TotalPages | Argojob/Pages/Vacancies.cshtml.cs:119 | zero pages exactly for an empty list |
| Paging.TotalPagesBounds | Argojob/Pages/Vacancies.cshtml.cs:119 | the fewest pages of the page size that hold every row: the pages hold them all, one page fewer would not |
| Paging.ClampPage | Argojob/Pages/Vacancies.cshtml.cs:121-122 | the page is at least 1, at most the page count when there are pages, and unchanged when already in range |
| Paging.ClampIdempotent | Argojob/Pages/Vacancies.cshtml.cs:121-122 | clamping a clamped page changes nothing |
| Paging.PageWindow | Argojob/Pages/Vacancies.cshtml.cs:125-128 | a page holds at most the page size of rows |
| Paging.WindowShape | Argojob/Pages/Vacancies.cshtml.cs:125-128 | item `i` of a page is row `(page - 1) * size + i`, and a page that starts inside the list is full unless the list runs out |
| Paging.WindowWithin | Argojob/Pages/Vacancies.cshtml.cs:125-128 | a page shows rows of the list only |
| Paging.WindowCovers | Argojob/Pages/Vacancies.cshtml.cs:118-128 | every row appears on a page within the page count, at the expected place |
| Paging.WindowAt | Argojob/Pages/Vacancies.cshtml.cs:125-128 | item `m` of a page is row `(page - 1) * size + m` whenever that row exists |
| Statuses.Ordinal | Argojob/Models/Application.cs:44-63 | each status is stored as one of the integers 0 to 5 |
| Statuses.FromOrdinal | Argojob/Models/Application.cs:44-63 | exactly the integers 0 to 5 denote a status, and the status denoted has that integer |
| Statuses.OrdinalRoundTrip | Argojob/Models/Application.cs:44-63 | integer and status convert into each other without loss |
| Statuses.GetDisplayName | Argojob/ViewModels/ApplicationViewModels.cs:63-75 | "Неизвестно" exactly for integers that are not a status |
| Statuses.GetColorClass | Argojob/ViewModels/ApplicationViewModels.cs:77-89 | "secondary" exactly for Withdrawn and for integers that are not a status |
| Statuses.GetIconClass | Argojob/ViewModels/ApplicationViewModels.cs:91-103 | "bi-question-circle" exactly for integers that are not a status |
| Statuses.TablesDistinct | Argojob/ViewModels/ApplicationViewModels.cs:63-103 | two different statuses get different names, colours and icons |
| Statuses.MenuDisplayName | Argojob/Pages/EmployerManagement/EmployerManagementMenu.cshtml.cs:169-181 | the menus word a status as the display table does except for Invited and Accepted, which they word differently |
| Statuses.ParseCode | Argojob/Pages/EmployeeManagement/ApplicationManagement/MyApplications.cshtml.cs:67-76 | a code parses to a status only if it is that status's lowercase name |
| Statuses.CodeSpelling | Argojob/Pages/EmployeeManagement/EmployeeManagementMenu.cshtml.cs:69 | the lowercase name of each status, spelled out |
| Statuses.CodeRoundTrip | Argojob/Pages/EmployeeManagement/ApplicationManagement/MyApplications.cshtml.cs:67-76 | parsing a status's code gives that status back, and only its code does |
| Statuses.ParseLabel | Argojob/Pages/EmployerManagement/ApplicationManagement/VacancyApplications.cshtml.cs:95-103 | a caption parses to a status only if it is that status's display name, and never to Withdrawn |
| Statuses.LabelRoundTrip | Argojob/Pages/EmployerManagement/ApplicationManagement/VacancyApplications.cshtml.cs:95-103 | parsing a display name gives the status back, except for Withdrawn, which has no caption |
| Statuses.AvailableStatusesParse | Argojob/Pages/EmployerManagement/ApplicationManagement/VacancyApplications.cshtml.cs:47-50 | the labels offered in the filter are exactly the ones the parser accepts |
| Statuses.CodeFilter | Argojob/Pages/EmployeeManagement/ApplicationManagement/MyApplications.cshtml.cs:65-81 | a status filter applies exactly when the query is present and parses as a code, and then the query is that status's code |
| Statuses.LabelFilter | Argojob/Pages/EmployerManagement/ApplicationManagement/VacancyApplications.cshtml.cs:93-108 | a status filter applies exactly when the query is an offered label, and then it is that status's display name and not Withdrawn |
| Entities.NewApplication | Argojob/Models/Application.cs:9-33 | a new application is Pending, has no status time and no employer comment, and takes the keys, the letter and the time given |
| Entities.NewCompany | Argojob/Models/Company.cs:8-27 | a new company is not verified and takes the name, description and contacts given |
| Entities.NewMembership | Argojob/Models/CompanyUser.cs:13-24 | a membership row holds the user, the company, the optional free-form role and the join time of its creation |
| Entities.NewVacancy | Argojob/Models/Vacancy.cs:23-41 | a new vacancy is active and unviewed, its category and location start empty, and it takes the title, texts, date, season flag, company and optional creator given |
| Entities.NewResume | Argojob/Models/Resume.cs:54-63 | a new resume is active and published, records its creation time, has no update time and no category |
| Web.FindUser | Argojob/Pages/EmployerManagement/ApplicationManagement/ApplicationDetail.cshtml.cs:73 | a profile is found exactly for a known user id, and it is that user's profile |
| Web.NameOr | Argojob/Pages/EmployerManagement/ApplicationManagement/ApplicationDetail.cshtml.cs:87 | the user's full name when there is one, otherwise the fallback |
| Web.EmailOrUnknown | Argojob/Pages/EmployerManagement/ApplicationManagement/ApplicationDetail.cshtml.cs:88 | the user's email when there is one, otherwise "Не указан" |
| Web.PhoneOf | Argojob/Pages/EmployerManagement/ApplicationManagement/ApplicationDetail.cshtml.cs:89 | no phone number for an unknown user, and exactly the user's stored phone (possibly none) for a known one |
| Text.Trim | Argojob/Repositories/RequirementRepository.cs:42 | the result is a piece of the text with only white space cut from both ends, it neither starts nor ends in white space, and it is empty exactly for a blank text |
| Text.TrimIdempotent | Argojob/Repositories/RequirementRepository.cs:42 | trimming twice is trimming once |
| Text.CleanEntry | Argojob/Repositories/RequirementRepository.cs:37-42 | an entry yields nothing exactly when it is null or white space, and otherwise one text |
| Text.TrimmedNonBlankTwice | Argojob/Pages/VacancyManagement/VacancyEdit.cshtml.cs:218-222 | cleaning a list the page has already cleaned changes nothing, so the repository's second cleaning keeps the page's list |
| Text.Lower | Argojob/Pages/Index.cshtml.cs:61-69 | lowering keeps the length and folds each character on its own |
| Text.LowerIdempotent | Argojob/Pages/Index.cshtml.cs:61-69 | lowering twice is lowering once |
| Store.Db.constructor | Argojob/Data/ApplicationDbContext.cs:14-24 | an empty context satisfies every key and reference rule, and the first key issued is 1 |
| Store.Db.AddCompany | Argojob/Repositories/Base/Repository.cs:54-67 | the company is stored under the next key, which is returned; the rules still hold and nothing else changes |
| Store.Db.AddMembership | Argojob/Data/ApplicationDbContext.cs:119-127 | a membership of a stored company for a user not yet a member is stored under the next key; nothing else changes |
| Store.Db.AddVacancy | Argojob/Data/ApplicationDbContext.cs:33-37 | a vacancy of a stored company is stored under the next key; nothing else changes |
| Store.Db.AddRequirement | Argojob/Data/ApplicationDbContext.cs:66-70 | a requirement of a stored vacancy is stored under the next key; nothing else changes |
| Store.Db.AddOffer | Argojob/Data/ApplicationDbContext.cs:73-77 | an offer of a stored vacancy is stored under the next key; nothing else changes |
| Store.Db.AddTag | Argojob/Data/ApplicationDbContext.cs:107-109 | a tag whose name is not taken is stored under the next key; nothing else changes |
| Store.Db.AddLink | Argojob/Data/ApplicationDbContext.cs:61-63 | a link between a stored vacancy and a stored tag not yet linked is stored under the next key; nothing else changes |
| Store.Db.AddResume | Argojob/Repositories/Base/Repository.cs:54-67 | the resume is stored under the next key; nothing else changes |
| Store.Db.AddCategory | Argojob/Data/ApplicationDbContext.cs:101-103 | a category whose name is not taken is stored under the next key; nothing else changes |
| Store.Db.AddLocation | Argojob/Repositories/Base/Repository.cs:54-67 | the location is stored under the next key; nothing else changes |
| Store.Db.InsertApplication | Argojob/Data/ApplicationDbContext.cs:161-193 | the insert is refused, changing nothing, exactly when the vacancy or the named resume is missing or the user already applied to the vacancy; otherwise the application is stored under the next key |
| Store.Db.AddApplication | Argojob/Data/ApplicationDbContext.cs:161-193 | an application that keeps the references and the one-per-pair index is stored under the next key; nothing else changes |
| Store.Db.SetApplication | Argojob/Repositories/Base/Repository.cs:89-94 | an application keeps its key, vacancy, user and resume and takes the new record; the rules still hold and nothing else changes |
| Store.Db.SetVacancy | Argojob/Repositories/Base/Repository.cs:89-94 | a vacancy updated to a stored company keeps its key and takes the new record; nothing else changes |
| Store.Db.SetCompany | Argojob/Repositories/Base/Repository.cs:89-94 | a company keeps its key and takes the new record; nothing else changes |
| Store.Db.SetResume | Argojob/Repositories/Base/Repository.cs:89-94 | a resume keeps its key and takes the new record; nothing else changes |
| Store.Db.SetMembership | Argojob/Repositories/Base/Repository.cs:89-94 | a membership keeps its key, user and company and takes the new record; nothing else changes |
| Store.Db.RemoveMembership | Argojob/Data/ApplicationDbContext.cs:113-127 | removing a membership keeps the rules, and only that row goes |
| Store.Db.RemoveRequirementsOf | Argojob/Repositories/RequirementRepository.cs:28-30 | exactly the requirements of the vacancy go; the rules still hold |
| Store.Db.RemoveMembershipsOf | Argojob/Data/ApplicationDbContext.cs:119-123 | exactly the memberships of the company go; the rules still hold |
| Store.Db.RemoveOffersOf | Argojob/Repositories/OfferRepository.cs:28-30 | exactly the offers of the vacancy go; the rules still hold |
| Store.Db.ClearCatalog | Argojob/Data/DbInitializer.cs:34-47 | with no application and no membership left, emptying the eight catalogue tables keeps the rules and touches nothing else |
| Store.Db.DeleteVacancy | Argojob/Data/ApplicationDbContext.cs:65-77 | a missing vacancy gives Missing, a vacancy with applications gives Restricted (both change nothing); otherwise the vacancy goes with its requirements, offers and tag links and nothing else changes |
| Store.Db.RemoveVacancyAt | Argojob/Data/ApplicationDbContext.cs:65-77 | the vacancy row goes together with its requirements, offers and tag links, and the store stays consistent |
| Store.Db.DeleteCompany | Argojob/Data/ApplicationDbContext.cs:33-37 | a missing company gives Missing, a company with vacancies or members gives Restricted (both change nothing); otherwise only the company goes |
| Store.Db.DeleteResume | Argojob/Data/ApplicationDbContext.cs:175-179 | false and no change exactly for a missing resume; otherwise the resume goes and the applications that used it keep no resume |
| Store.Db.DeleteUser | Argojob/Data/ApplicationDbContext.cs:53-58 | a user with memberships, resumes or applications cannot be deleted (no change); otherwise the vacancies the user created forget their creator and nothing else changes |
| Store.RequirementsOutside | Argojob/Data/ApplicationDbContext.cs:66-70 | exactly the requirements of other vacancies remain, in key order |
| Store.OffersOutside | Argojob/Data/ApplicationDbContext.cs:73-77 | exactly the offers of other vacancies remain, in key order |
| Store.LinksOutside | Argojob/Data/ApplicationDbContext.cs:61-63 | exactly the tag links of other vacancies remain, in key order |
| Store.MembershipsOutside | Argojob/Data/ApplicationDbContext.cs:119-123 | exactly the memberships of other companies remain, in key order |
| Store.DetachResume | Argojob/Data/ApplicationDbContext.cs:175-179 | every application keeps its key and record, except that one naming the resume now names none |
| Store.ForgetCreator | Argojob/Data/ApplicationDbContext.cs:54-58 | every vacancy keeps its key and record, except that one created by the user now has no creator |
| Store.Cleared | Argojob/Data/DbInitializer.cs:37-44 | the eight catalogue tables are empty and resumes, applications, memberships and the key counter are kept |
| Store.AddCompanyConsistent | Argojob/Data/ApplicationDbContext.cs:91-92 | adding a company under the next key keeps every rule |
| Store.AddMembershipConsistent | Argojob/Data/ApplicationDbContext.cs:119-127 | adding a membership of a stored company for a new member keeps every rule |
| Store.AddVacancyConsistent | Argojob/Data/ApplicationDbContext.cs:33-37 | adding a vacancy of a stored company keeps every rule |
| Store.AddRequirementConsistent | Argojob/Data/ApplicationDbContext.cs:66-70 | adding a requirement of a stored vacancy keeps every rule |
| Store.AddOfferConsistent | Argojob/Data/ApplicationDbContext.cs:73-77 | adding an offer of a stored vacancy keeps every rule |
| Store.AddTagConsistent | Argojob/Data/ApplicationDbContext.cs:107-109 | adding a tag with an unused name keeps every rule |
| Store.AddLinkConsistent | Argojob/Data/ApplicationDbContext.cs:61-63 | adding a new link between a stored vacancy and a stored tag keeps every rule |
| Store.AddResumeConsistent | Argojob/Data/ApplicationDbContext.cs:137-141 | adding a resume keeps every rule |
| Store.AddCategoryConsistent | Argojob/Data/ApplicationDbContext.cs:101-103 | adding a category with an unused name keeps every rule |
| Store.AddLocationConsistent | Argojob/Data/ApplicationDbContext.cs:96-97 | adding a location keeps every rule |
| Store.AddApplicationConsistent | Argojob/Data/ApplicationDbContext.cs:161-193 | adding an application to a stored vacancy, with a stored resume or none, by a user who has not applied, keeps every rule |
| Store.SetApplicationConsistent | Argojob/Data/ApplicationDbContext.cs:161-193 | updating an application without changing its vacancy, user or resume keeps every rule |
| Store.SetVacancyConsistent | Argojob/Data/ApplicationDbContext.cs:33-37 | updating a vacancy to a stored company keeps every rule |
| Store.SetCompanyConsistent | Argojob/Data/ApplicationDbContext.cs:91-92 | updating a company keeps every rule |
| Store.SetResumeConsistent | Argojob/Data/ApplicationDbContext.cs:137-141 | updating a resume keeps every rule |
| Store.SetMembershipConsistent | Argojob/Data/ApplicationDbContext.cs:125-127 | updating a membership without changing its user or company keeps every rule |
| Store.RemoveMembershipConsistent | Argojob/Data/ApplicationDbContext.cs:113-127 | removing a membership keeps every rule |
| Store.RemoveRequirementsConsistent | Argojob/Data/ApplicationDbContext.cs:66-70 | removing a vacancy's requirements keeps every rule |
| Store.RemoveMembershipsConsistent | Argojob/Data/ApplicationDbContext.cs:119-123 | removing a company's memberships keeps every rule |
| Store.RemoveOffersConsistent | Argojob/Data/ApplicationDbContext.cs:73-77 | removing a vacancy's offers keeps every rule |
| Store.ClearedConsistent | Argojob/Data/DbInitializer.cs:34-47 | with no application and no membership, emptying the catalogue keeps every rule |
| Store.VacancyRemovalConsistent | Argojob/Data/ApplicationDbContext.cs:65-77 | removing a vacancy without applications together with its requirements, offers and links keeps every rule |
| Store.CompanyRemovalConsistent | Argojob/Data/ApplicationDbContext.cs:33-37 | removing a company without vacancies and members keeps every rule |
| Store.ResumeRemovalConsistent | Argojob/Data/ApplicationDbContext.cs:175-179 | removing a resume and detaching it from applications keeps every rule |
| Store.ForgetCreatorConsistent | Argojob/Data/ApplicationDbContext.cs:54-58 | setting the creator of a user's vacancies to none keeps every rule |
| Store.DetachResumeKeeps | Argojob/Data/ApplicationDbContext.cs:175-193 | detaching a resume keeps the application keys, the one-per-pair index and every remaining reference |
| Store.ForgetCreatorKeeps | Argojob/Data/ApplicationDbContext.cs:54-58 | forgetting a creator keeps the vacancy keys and their company references |
| ApplicationRepository.LaterAppliedOrders | Argojob/Repositories/ApplicationRepository.cs:21 | latest-applied-first is a total preorder, so the sorted listings are well defined |
| ApplicationRepository.ByUser | Argojob/Repositories/ApplicationRepository.cs:14-23 | exactly the user's applications, each once, latest first |
| ApplicationRepository.ByVacancy | Argojob/Repositories/ApplicationRepository.cs:25-33 | exactly the vacancy's applications, each once, latest first |
| ApplicationRepository.ByCompany | Argojob/Repositories/ApplicationRepository.cs:80-89 | exactly the applications whose vacancy belongs to the company, each once (a permutation of the filtered rows), latest first |
| ApplicationRepository.CountByVacancy | Argojob/Repositories/ApplicationRepository.cs:68-72 | the count is the length of the vacancy's listing |
| ApplicationRepository.CountByUser | Argojob/Repositories/ApplicationRepository.cs:74-78 | the count is the length of the user's listing |
| ApplicationRepository.HasAppliedMatchesListing | Argojob/Repositories/ApplicationRepository.cs:62-66 | the user has applied to the vacancy exactly when the user's listing, or the vacancy's listing, holds that pair |
| ApplicationRepository.WithStatus | Argojob/Repositories/ApplicationRepository.cs:50-56 | the status is the requested one and stamped with the time; the comment is replaced only when one is given; vacancy, user, resume, letter and application time are kept |
| ApplicationRepository.WithStatusIdempotent | Argojob/Repositories/ApplicationRepository.cs:50-56 | the same update twice is the update once |
| ApplicationRepository.WithStatusTwice | Argojob/Repositories/ApplicationRepository.cs:50-56 | two updates in a row are the second one, keeping the first comment unless the second gives one |
| ApplicationRepository.StatusUpdated | Argojob/Repositories/ApplicationRepository.cs:45-60 | only the row under the key changes, all keys stay, and a missing key changes nothing |
| ApplicationRepository.StatusUpdatedLookup | Argojob/Repositories/ApplicationRepository.cs:45-60 | after the update the key finds the updated application and every other key finds what it found before |
| ApplicationRepository.UpdateStatus | Argojob/Repositories/ApplicationRepository.cs:45-60 | false and no change exactly for a missing key; otherwise true, and only that application changes, as `StatusUpdated` says |
| CompanyRepository.NameFirstOrders | Argojob/Repositories/CompanyRepository.cs:25 | ordering by name is a total preorder |
| CompanyRepository.Verified | Argojob/Repositories/CompanyRepository.cs:21-27 | exactly the verified companies, each once, sorted by name |
| CompanyRepository.ByName | Argojob/Repositories/CompanyRepository.cs:29-33 | a company found has the name up to case; none is found only when no company has it |
| CompanyRepository.VacanciesCount | Argojob/Repositories/CompanyRepository.cs:35-39 | the count of the company's active vacancies, and only those |
| CompanyRepository.WithActiveVacancies | Argojob/Repositories/CompanyRepository.cs:14-19 | found exactly for a stored key, with exactly the company's active vacancies |
| CompanyRepository.Search | Argojob/Repositories/CompanyRepository.cs:41-53 | a blank term lists every company; otherwise exactly the companies whose name or description holds the term up to case, each once (a permutation of the filtered rows), sorted by name |
| CompanyRepository.SearchNarrows | Argojob/Repositories/CompanyRepository.cs:41-53 | a search lists stored companies only and never more than there are |
| CompanyRepository.MembershipIndex | Argojob/Repositories/ICompanyRepository.cs:16 | the position of the user's membership of the company, found exactly when the user is a member |
| CompanyRepository.RoleIn | Argojob/Repositories/ICompanyRepository.cs:17 | no role for a non-member; a role found is the one a stored membership of that user and company carries |
| CompanyRepository.RoleOfMember | Argojob/Repositories/ICompanyRepository.cs:17 | with one membership per pair, the role found is the membership's own |
| CompanyRepository.CompaniesOf | Argojob/Repositories/ICompanyRepository.cs:15 | exactly the stored companies the user is a member of, in key order |
| CompanyRepository.MembersOf | Argojob/Repositories/ICompanyRepository.cs:22 | exactly the memberships of the company, in key order |
| CompanyRepository.AddUserToCompany | Argojob/Repositories/ICompanyRepository.cs:18 | succeeds exactly for a stored company the user is not yet a member of, adding that one membership with the role and time; otherwise changes nothing |
| CompanyRepository.RemoveUserFromCompany | Argojob/Repositories/ICompanyRepository.cs:19 | succeeds exactly for a member, removing that one membership; otherwise changes nothing |
| CompanyRepository.UpdateUserRole | Argojob/Repositories/ICompanyRepository.cs:20 | succeeds exactly for a member, replacing only that membership's role; otherwise changes nothing |
| CompanyRepository.RemovedMembership | Argojob/Repositories/ICompanyRepository.cs:19 | after the removal the user is no longer a member and every other membership stays |
| CompanyRepository.UpdatedRole | Argojob/Repositories/ICompanyRepository.cs:20 | after the update the member's role is the new one |
| CompanyRepository.JoinedWithRole | Argojob/Repositories/ICompanyRepository.cs:18 | after joining the user is a member with the given role |
| VacancyRepository.PostedLaterOrders | Argojob/Repositories/VacancyRepository.cs:38 | newest-posted-first is a total preorder |
| VacancyRepository.Active | Argojob/Repositories/VacancyRepository.cs:31-40 | exactly the active vacancies, each once, newest first |
| VacancyRepository.Seasonal | Argojob/Repositories/VacancyRepository.cs:42-51 | exactly the active seasonal vacancies, each once (a permutation of the filtered rows), newest first |
| VacancyRepository.ByCompany | Argojob/Repositories/VacancyRepository.cs:63-71 | exactly the company's active vacancies, newest first, as many as the company repository counts |
| VacancyRepository.Latest | Argojob/Repositories/VacancyRepository.cs:104-114 | at most `count` active vacancies, distinct rows of the active listing (a sub-multiset of it), newest first, fewer only when there are no more, and none of the left-out ones is newer |
| VacancyRepository.Search | Argojob/Repositories/VacancyRepository.cs:83-102 | a blank term lists the active vacancies; otherwise exactly the active ones whose title, description, company name or category holds the term up to case, each once (a permutation of the filtered rows), newest first |
| VacancyRepository.SearchWithinActive | Argojob/Repositories/VacancyRepository.cs:83-102 | a search never lists an inactive vacancy |
| VacancyRepository.Stats | Argojob/Repositories/VacancyRepository.cs:116-126 | total, active and seasonal counts, the last two never above the total |
| VacancyRepository.Matching | Argojob/Repositories/VacancyRepository.cs:174-206 | exactly the vacancies the filter selects (active, then each given criterion), each once (a permutation of the filtered rows, so its length is the match count), newest first |
| VacancyRepository.FilterVacancies | Argojob/Repositories/VacancyRepository.cs:163-215 | at most a page of vacancies, nothing for a non-positive page size, each one the filter selects |
| VacancyRepository.FilterPage | Argojob/Repositories/VacancyRepository.cs:209-212 | item `i` of page `page` is match `(page - 1) * pageSize + i` |
| VacancyRepository.FilterNarrows | Argojob/Repositories/VacancyRepository.cs:181-206 | each criterion only narrows the result, and with none the result is the active vacancies |
| VacancyRepository.ActiveSet | Argojob/Repositories/VacancyRepository.cs:128-149 | only the vacancy under the key may change, and only its active flag; a missing key changes nothing |
| VacancyRepository.ActiveSetLookup | Argojob/Repositories/VacancyRepository.cs:128-149 | afterwards the key finds the vacancy with the new flag and every other key finds what it found before |
| VacancyRepository.ActiveSetIdempotent | Argojob/Repositories/VacancyRepository.cs:128-149 | publishing or archiving twice is doing it once |
| VacancyRepository.ActiveSetKeeps | Argojob/Repositories/VacancyRepository.cs:128-149 | setting the flag a vacancy already has changes nothing |
| VacancyRepository.SetActive | Argojob/Repositories/VacancyRepository.cs:128-149 | false and no change exactly for a missing key; otherwise true and only the flag changes |
| VacancyRepository.Publish | Argojob/Repositories/VacancyRepository.cs:128-138 | false and no change for a missing key; otherwise true and the vacancy becomes active |
| VacancyRepository.Archive | Argojob/Repositories/VacancyRepository.cs:140-149 | false and no change for a missing key; otherwise true and the vacancy becomes inactive |
| VacancyRepository.Viewed | Argojob/Repositories/VacancyRepository.cs:151-161 | only the vacancy under the key may change, and only by one more view |
| VacancyRepository.ViewedLookup | Argojob/Repositories/VacancyRepository.cs:151-161 | afterwards the key finds the vacancy with one more view and every other key finds what it found before |
| VacancyRepository.IncrementViews | Argojob/Repositories/VacancyRepository.cs:151-161 | 0 and no change for a missing key; otherwise the new view count, one more than before, which is what the vacancy now holds |
| RequirementRepository.ByVacancy | Argojob/Repositories/RequirementRepository.cs:14-20 | exactly the vacancy's requirements, in key order |
| RequirementRepository.NothingOutside | Argojob/Repositories/RequirementRepository.cs:24-26 | when the vacancy has no requirements, removing them changes nothing |
| RequirementRepository.DeleteAll | Argojob/Repositories/RequirementRepository.cs:22-31 | false and no change exactly when the vacancy has no requirements; otherwise exactly its requirements go |
| RequirementRepository.AddTexts | Argojob/Repositories/RequirementRepository.cs:33-50 | the cleaned texts are stored in order under consecutive new keys, which are returned; nothing else changes |
| RequirementRepository.AddRange | Argojob/Repositories/RequirementRepository.cs:33-50 | blank entries are skipped, the rest are stored trimmed and in order under consecutive new keys, one returned per stored text; nothing else changes |
| RequirementRepository.ReplacedListing | Argojob/Repositories/RequirementRepository.cs:14-50 | after removing a vacancy's requirements and adding texts, the vacancy's listing is exactly those texts in order |
| RequirementRepository.ListsOnlyAdded | Argojob/Repositories/RequirementRepository.cs:14-50 | the listing after a replacement does not depend on what was there before |
| RequirementRepository.AddedListing | Argojob/Repositories/RequirementRepository.cs:14-50 | adding texts to a vacancy without requirements lists exactly those texts in order |
| OfferRepository.ByVacancy | Argojob/Repositories/OfferRepository.cs:14-20 | exactly the vacancy's offers, in key order |
| OfferRepository.NothingOutside | Argojob/Repositories/OfferRepository.cs:24-26 | when the vacancy has no offers, removing them changes nothing |
| OfferRepository.DeleteAll | Argojob/Repositories/OfferRepository.cs:22-31 | false and no change exactly when the vacancy has no offers; otherwise exactly its offers go |
| OfferRepository.AddTexts | Argojob/Repositories/OfferRepository.cs:33-49 | the cleaned texts are stored in order under consecutive new keys, which are returned; nothing else changes |
| OfferRepository.AddRange | Argojob/Repositories/OfferRepository.cs:33-49 | blank entries are skipped, the rest are stored trimmed and in order under consecutive new keys, one returned per stored text; nothing else changes |
| OfferRepository.ReplacedListing | Argojob/Repositories/OfferRepository.cs:14-49 | after removing a vacancy's offers and adding texts, the vacancy's listing is exactly those texts in order |
| OfferRepository.ListsOnlyAdded | Argojob/Repositories/OfferRepository.cs:14-49 | the listing after a replacement does not depend on what was there before |
| OfferRepository.AddedListing | Argojob/Repositories/OfferRepository.cs:14-49 | adding texts to a vacancy without offers lists exactly those texts in order |
| TagRepository.ByName | Argojob/Repositories/TagRepository.cs:14-18 | a tag found has the name up to case; none is found only when no tag has it |
| TagRepository.LinkCount | Argojob/Repositories/TagRepository.cs:23 | a tag's link count is positive exactly when some vacancy is linked to it |
| TagRepository.MoreLinkedOrders | Argojob/Repositories/TagRepository.cs:23 | ordering by link count, most first, is a total preorder |
| TagRepository.Popular | Argojob/Repositories/TagRepository.cs:20-26 | `count` tags, or every tag when there are fewer, distinct rows of the table (a sub-multiset of it), most linked first |
| TagRepository.PopularLeadsTheRest | Argojob/Repositories/TagRepository.cs:20-26 | no tag left out is linked more often than a tag listed |
| TagRepository.ByVacancyMembers | Argojob/Repositories/TagRepository.cs:28-34 | the vacancy's tags are exactly the stored tags linked to it |
| TagRepository.WithCounts | Argojob/Repositories/TagRepository.cs:36-41 | fails exactly when two tags share a name; otherwise every tag's name maps to its link count, and only tag names are keys |
| TagRepository.CountsOfUniqueNames | Argojob/Data/ApplicationDbContext.cs:107-109 | with unique tag names the counts never fail |
| TagRepository.AttachTag | Argojob/Repositories/TagRepository.cs:53-75 | an existing tag is reused and a missing one created under the next key; the link is added exactly when it did not exist; only tags, links and the key counter change |
| TagRepository.AddTagsToVacancy | Argojob/Repositories/TagRepository.cs:43-80 | nothing for a missing vacancy; otherwise every name ends up linked through a tag of that name up to case, the returned keys are distinct and exactly the tags newly linked, new tags carry given names, and nothing but tags, links and the key counter changes |
| TagRepository.AttachStep | Argojob/Repositories/TagRepository.cs:51-76 | one name more keeps the loop's invariant |
| TagRepository.AddTagsAsWritten | Argojob/Repositories/TagRepository.cs:43-80 | the loop as written fails exactly when a save, in the middle of the loop for a new tag or at its end, meets two pending links to the same tag; otherwise it gives the collected keys |
| TagRepository.StepAsWritten | Argojob/Repositories/TagRepository.cs:51-78 | after a failed save nothing changes; a new name fails exactly when the pending links repeat a tag; a found tag never fails and changes neither the tags nor the saved links; the collected keys grow by at most one and the stored tags only grow |
| TagRepository.LoopAsWritten | Argojob/Repositories/TagRepository.cs:51-78 | the collected keys and the stored tags only grow, by at most one key per name |
| TagRepository.FailedStays | Argojob/Repositories/TagRepository.cs:51-78 | once a save has thrown, the remaining names change nothing |
| TagRepository.MidLoopSaveFailsAsWritten | Argojob/Repositories/TagRepository.cs:51-78 | with tag "Java" stored and names "Java", "java", "Kotlin", the save for the new tag "Kotlin" meets two pending links to "Java" and throws, so the call fails |
| TagRepository.CaseVariantsFailAsWritten | Argojob/Repositories/TagRepository.cs:51-78 | "Java" and "java" on a vacancy with tag "Java" make the written loop add one link twice, which the unique index refuses |
| ResumeRepository.CreatedLaterOrders | Argojob/Repositories/ResumeRepository.cs:19 | newest-created-first is a total preorder |
| ResumeRepository.ByUser | Argojob/Repositories/ResumeRepository.cs:14-21 | exactly the user's resumes, each once, newest first |
| ResumeRepository.CountByUser | Argojob/Repositories/ResumeRepository.cs:70-74 | the count is the length of the user's listing |
| ResumeRepository.Search | Argojob/Repositories/ResumeRepository.cs:31-57 | exactly the resumes the search selects (active and published, matching a non-blank term up to case in title, name, skills or about, of the category when given), each once (a permutation of the filtered rows), newest first |
| ResumeRepository.SearchShowsVisible | Argojob/Repositories/ResumeRepository.cs:34-52 | a search lists only active, published resumes, and only of the category when one is given |
| ResumeRepository.BlankTermIgnored | Argojob/Repositories/ResumeRepository.cs:39-47 | a blank term lists the same resumes as no term |
| ResumeRepository.SearchNarrows | Argojob/Repositories/ResumeRepository.cs:39-52 | term and category only narrow the listing |
| ResumeRepository.StatusSet | Argojob/Repositories/ResumeRepository.cs:59-68 | only the resume under the key may change, every key stays, and a missing key changes nothing |
| ResumeRepository.StatusSetLookup | Argojob/Repositories/ResumeRepository.cs:59-68 | afterwards the key finds the resume with the new active flag and the time stamped, publication untouched, and every other key finds what it found before |
| ResumeRepository.ToggleStatus | Argojob/Repositories/ResumeRepository.cs:59-68 | false and no change exactly for a missing key; otherwise true and only that resume changes |
| ApplicationLists.Narrow | Argojob/Pages/EmployeeManagement/ApplicationManagement/MyApplications.cshtml.cs:64-84 | keeps exactly the applications in the chosen status, all of them when no status is chosen, in the order given |
| ApplicationLists.StatusCount | Argojob/Pages/EmployeeManagement/ApplicationManagement/MyApplications.cshtml.cs:128-132 | a status counter never exceeds the number of applications |
| ApplicationLists.StatusCountNarrows | Argojob/Pages/EmployeeManagement/ApplicationManagement/MyApplications.cshtml.cs:128-132 | a counter equals the length of the listing narrowed to its status |
| ApplicationLists.StatusCountsAddUp | Argojob/Pages/EmployeeManagement/ApplicationManagement/MyApplications.cshtml.cs:128-132 | the six per-status counters add up to the number of applications |
| ApplicationLists.CoverLetterPreview | Argojob/Pages/EmployerManagement/ApplicationManagement/VacancyApplications.cshtml.cs:147-149 | a letter longer than 100 characters becomes its first 100 characters and "...", a shorter one is shown whole, no letter stays none |
| ApplicationLists.PreviewBounded | Argojob/Pages/EmployerManagement/ApplicationManagement/VacancyApplications.cshtml.cs:147-149 | a preview has at most 103 characters and starts with the letter's first characters |
| MyApplicationsPage.ItemOf | Argojob/Pages/EmployeeManagement/ApplicationManagement/MyApplications.cshtml.cs:100-120 | the card copies the application's fields, shows its status name and colour, offers withdrawal exactly for Pending and Viewed, and falls back to "Вакансия удалена" / "Не указано" / "Не указана" for a deleted vacancy |
| MyApplicationsPage.ItemsOf | Argojob/Pages/EmployeeManagement/ApplicationManagement/MyApplications.cshtml.cs:98-121 | one card per application, in order |
| MyApplicationsPage.AppendItems | Argojob/Pages/EmployeeManagement/ApplicationManagement/MyApplications.cshtml.cs:98-121 | the loop appends the cards of the page's applications, in order, to what was shown |
| MyApplicationsPage.LoadPage | Argojob/Pages/EmployeeManagement/ApplicationManagement/MyApplications.cshtml.cs:84-121 | the total is the listing's length, the page is clamped to the page count and the cards are those of the page's window |
| MyApplicationsPage.Listed | Argojob/Pages/EmployeeManagement/ApplicationManagement/MyApplications.cshtml.cs:61-82 | lists exactly the caller's applications in the status named by the query code (all of them for a missing or unknown code), newest first |
| MyApplicationsPage.ShownAreOwn | Argojob/Pages/EmployeeManagement/ApplicationManagement/MyApplications.cshtml.cs:59-121 | every card shown is one of the caller's own applications, in the chosen status |
| MyApplicationsPage.WithdrawResponse | Argojob/Pages/EmployeeManagement/ApplicationManagement/MyApplications.cshtml.cs:149-174 | challenge exactly without a caller, not found exactly for a missing or foreign application, success exactly for the caller's Pending or Viewed application, a refusal otherwise |
| MyApplicationsPage.WithdrawMatchesButton | Argojob/Pages/EmployeeManagement/ApplicationManagement/MyApplications.cshtml.cs:119 | for the caller's own application, withdrawing succeeds exactly when its card offers the withdraw button |
| MyApplicationsPage.WithdrawOnce | Argojob/Pages/EmployeeManagement/ApplicationManagement/MyApplications.cshtml.cs:164-170 | after a successful withdrawal a second one is refused |
| MyApplicationsPage.MyApplicationsModel.constructor | Argojob/Pages/EmployeeManagement/ApplicationManagement/MyApplications.cshtml.cs:25-43 | the query's status and page, no cards and zero counters |
| MyApplicationsPage.MyApplicationsModel.OnGet | Argojob/Pages/EmployeeManagement/ApplicationManagement/MyApplications.cshtml.cs:45-57 | a challenge that changes nothing without a caller; otherwise the page with the listing's total, the clamped page, its cards and the per-status counters of all the caller's applications |
| MyApplicationsPage.MyApplicationsModel.LoadApplications | Argojob/Pages/EmployeeManagement/ApplicationManagement/MyApplications.cshtml.cs:59-122 | sets the total, the page count, the clamped page and the cards, and leaves the counters alone |
| MyApplicationsPage.MyApplicationsModel.LoadStatistics | Argojob/Pages/EmployeeManagement/ApplicationManagement/MyApplications.cshtml.cs:124-133 | sets the five counters from all the caller's applications and leaves the listing alone |
| MyApplicationsPage.MyApplicationsModel.OnPostWithdraw | Argojob/Pages/EmployeeManagement/ApplicationManagement/MyApplications.cshtml.cs:149-174 | answers as the withdraw rule says; only on success does the application become Withdrawn with the applicant's comment and the time, and nothing else in the store changes |
| ApplicationDetailPage.Gate | Argojob/Pages/EmployerManagement/ApplicationManagement/ApplicationDetail.cshtml.cs:30-57 | challenge exactly without a caller, not found exactly for a missing application or vacancy, forbidden exactly when the caller neither created the vacancy, belongs to its company nor is an administrator; admission implies the application exists |
| ApplicationDetailPage.GateAdmits | Argojob/Pages/EmployerManagement/ApplicationManagement/ApplicationDetail.cshtml.cs:51-57 | for a stored application and vacancy, the caller is admitted exactly when they created the vacancy, belong to its company or are an administrator |
| ApplicationDetailPage.AfterView | Argojob/Pages/EmployerManagement/ApplicationManagement/ApplicationDetail.cshtml.cs:59-64 | opening a Pending application marks it Viewed at that time; any other status, or a missing key, changes nothing |
| ApplicationDetailPage.ViewTwice | Argojob/Pages/EmployerManagement/ApplicationManagement/ApplicationDetail.cshtml.cs:59-64 | opening an application a second time changes nothing more |
| ApplicationDetailPage.ViewKeepsComment | Argojob/Pages/EmployerManagement/ApplicationManagement/ApplicationDetail.cshtml.cs:59-64 | after opening, the application is no longer Pending and keeps the employer's comment |
| ApplicationDetailPage.ViewOf | Argojob/Pages/EmployerManagement/ApplicationManagement/ApplicationDetail.cshtml.cs:71-105 | the detail copies the application's fields and status name and colour; with a stored vacancy it shows that vacancy's title and its company's name or "Не указано", without one "Не указано"; it shows the applicant's profile name or user id, e-mail or "Не указано" and phone; and the resume key and title exactly when one is stored under the application's key |
| ApplicationDetailPage.ApplicationDetailModel.constructor | Argojob/Pages/EmployerManagement/ApplicationManagement/ApplicationDetail.cshtml.cs:25-28 | the route id and no detail |
| ApplicationDetailPage.ApplicationDetailModel.OnGet | Argojob/Pages/EmployerManagement/ApplicationManagement/ApplicationDetail.cshtml.cs:30-69 | a refused request answers as the gate says and changes nothing; an admitted one shows the page, marks a Pending application Viewed and nothing else, and shows the detail of the application as stored afterwards |
| ApplicationDetailPage.Open | Argojob/Pages/EmployerManagement/ApplicationManagement/ApplicationDetail.cshtml.cs:59-66 | marks the application viewed and returns the detail of what is stored afterwards |
| ApplicationDetailPage.MarkViewed | Argojob/Pages/EmployerManagement/ApplicationManagement/ApplicationDetail.cshtml.cs:59-64 | the store changes exactly as the viewing rule says and the application stays stored |
| ApplicationDetailPage.ApplicationDetailModel.OnPostUpdateStatus | Argojob/Pages/EmployerManagement/ApplicationManagement/ApplicationDetail.cshtml.cs:121-154 | a refused request answers as the gate says and changes nothing; an admitted one sets the new status, comment and time on that application only and redirects with the status notice |
| VacancyApplicationsPage.Gate | Argojob/Pages/EmployerManagement/ApplicationManagement/VacancyApplications.cshtml.cs:54-76 | challenge exactly without a caller, not found exactly for a missing vacancy, forbidden exactly when the caller neither created the vacancy, belongs to its company nor is an administrator |
| VacancyApplicationsPage.ItemOf | Argojob/Pages/EmployerManagement/ApplicationManagement/VacancyApplications.cshtml.cs:125-150 | the row copies the application's key, status name and colour and date, previews the cover letter, names the applicant by profile or by user id, shows the profile's e-mail or "Не указан" and its phone, and shows the resume's key and title exactly when one is stored under the application's key |
| VacancyApplicationsPage.ItemsOf | Argojob/Pages/EmployerManagement/ApplicationManagement/VacancyApplications.cshtml.cs:125-151 | one row per application, in order |
| VacancyApplicationsPage.AppendItems | Argojob/Pages/EmployerManagement/ApplicationManagement/VacancyApplications.cshtml.cs:125-151 | the loop appends the rows of the page's applications, in order, to what was shown |
| VacancyApplicationsPage.Listed | Argojob/Pages/EmployerManagement/ApplicationManagement/VacancyApplications.cshtml.cs:87-111 | lists exactly the vacancy's applications in the status whose caption was chosen (all of them for a missing or unknown caption), newest first |
| VacancyApplicationsPage.WithdrawnNeverSelected | Argojob/Pages/EmployerManagement/ApplicationManagement/VacancyApplications.cshtml.cs:95-103 | a chosen caption never lists withdrawn applications |
| VacancyApplicationsPage.LoadPage | Argojob/Pages/EmployerManagement/ApplicationManagement/VacancyApplications.cshtml.cs:111-151 | the total is the listing's length, the page is clamped to the page count and the rows are those of the page's window |
| VacancyApplicationsPage.CompanyNameOf | Argojob/Pages/EmployerManagement/ApplicationManagement/VacancyApplications.cshtml.cs:79 | the company's name, or "Не указано" when it is not stored |
| VacancyApplicationsPage.VacancyApplicationsModel.constructor | Argojob/Pages/EmployerManagement/ApplicationManagement/VacancyApplications.cshtml.cs:25-52 | the route's vacancy, the query's status and page, empty titles, no rows and zero counters |
| VacancyApplicationsPage.VacancyApplicationsModel.OnGet | Argojob/Pages/EmployerManagement/ApplicationManagement/VacancyApplications.cshtml.cs:54-85 | a refused request answers as the gate says and changes nothing; otherwise the page with the vacancy's title and company, the listing's total, the clamped page, its rows and the counters of all the vacancy's applications |
| VacancyApplicationsPage.VacancyApplicationsModel.LoadApplications | Argojob/Pages/EmployerManagement/ApplicationManagement/VacancyApplications.cshtml.cs:87-152 | sets the total, the page count, the clamped page and the rows, and leaves titles and counters alone |
| VacancyApplicationsPage.VacancyApplicationsModel.LoadStatistics | Argojob/Pages/EmployerManagement/ApplicationManagement/VacancyApplications.cshtml.cs:154-161 | sets the Pending, Viewed and Accepted counters from all the vacancy's applications and leaves the rest alone |
| CompanyEditPage.InputOf | Argojob/Pages/CompanyManagement/CompanyEdit.cshtml.cs:80-87 | the form carries every field of the stored company and its key |
| CompanyEditPage.Edited | Argojob/Pages/CompanyManagement/CompanyEdit.cshtml.cs:127-138 | the company takes the form's name, description and contacts; the verified flag changes only for an administrator |
| CompanyEditPage.NewCompanyOf | Argojob/Pages/CompanyManagement/CompanyEdit.cshtml.cs:154-163 | the new company takes the form's fields and is verified only when an administrator ticked the flag |
| CompanyEditPage.EditResponse | Argojob/Pages/CompanyManagement/CompanyEdit.cshtml.cs:110-142 | a form without a key fails with the "no value" error; not found exactly for a missing company; forbidden exactly when the caller is neither a member nor an administrator; success otherwise |
| CompanyEditPage.CreateResponse | Argojob/Pages/CompanyManagement/CompanyEdit.cshtml.cs:145-152 | the duplicate-name error exactly when a stored company has the same name ignoring case, success exactly when none has |
| CompanyEditPage.Created | Argojob/Pages/CompanyManagement/CompanyEdit.cshtml.cs:154-170 | the new company is stored under the next key and the caller becomes its member with role Admin under the key after it; nothing else changes |
| CompanyEditPage.NoMembersYet | Argojob/Pages/CompanyManagement/CompanyEdit.cshtml.cs:165-168 | in a consistent store nobody is yet a member of the company about to be created |
| CompanyEditPage.CreatedOwner | Argojob/Pages/CompanyManagement/CompanyEdit.cshtml.cs:154-170 | creating keeps the store consistent, stores the company under the new key and makes the caller its Admin member |
| CompanyEditPage.Save | Argojob/Pages/CompanyManagement/CompanyEdit.cshtml.cs:127-140 | only the edited company changes, in place, as the edit rule says |
| CompanyEditPage.Edit | Argojob/Pages/CompanyManagement/CompanyEdit.cshtml.cs:110-142 | answers as the edit rule says and changes only the edited company, and only on success |
| CompanyEditPage.Create | Argojob/Pages/CompanyManagement/CompanyEdit.cshtml.cs:145-172 | answers as the creation rule says; on success the store is exactly the one with the company and its owner added and the new key is returned, otherwise nothing changes |
| CompanyEditPage.CompanyEditModel.constructor | Argojob/Pages/CompanyManagement/CompanyEdit.cshtml.cs:21-27 | the route key and the posted form |
| CompanyEditPage.CompanyEditModel.OnGet | Argojob/Pages/CompanyManagement/CompanyEdit.cshtml.cs:55-91 | challenge without a caller, an empty form for a new company, not found for a missing one, forbidden for a caller who is neither member nor administrator, otherwise the form filled from the company |
| CompanyEditPage.CompanyEditModel.OnPost | Argojob/Pages/CompanyManagement/CompanyEdit.cshtml.cs:93-183 | an invalid form shows the page and a missing caller is challenged, both changing nothing; with a route key a success replaces exactly the stored company by its edited form and any other answer (not found, forbidden, form error) changes nothing; without one it creates and records the new key in the form, and a duplicate name changes nothing |
| CompanyUsersPage.Access | Argojob/Pages/EmployerManagement/CompanyManagement/CompanyUsers.cshtml.cs:32-43 | challenge exactly without a caller, forbidden exactly when the caller is neither a member nor an administrator |
| CompanyUsersPage.MemberViewOf | Argojob/Pages/EmployerManagement/CompanyManagement/CompanyUsers.cshtml.cs:56-63 | the row shows the member's user id and join date, the role or "Viewer", the profile's name (none for an unknown user), the profile's e-mail when it has one and "Неизвестно" otherwise |
| CompanyUsersPage.MemberViews | Argojob/Pages/EmployerManagement/CompanyManagement/CompanyUsers.cshtml.cs:54-63 | one row per membership of the company, in order |
| CompanyUsersPage.MemberViewsComplete | Argojob/Pages/EmployerManagement/CompanyManagement/CompanyUsers.cshtml.cs:54-63 | every member of the company appears in the list |
| CompanyUsersPage.AddUserResponse | Argojob/Pages/EmployerManagement/CompanyManagement/CompanyUsers.cshtml.cs:68-104 | after the access check: an unknown e-mail fails, a user already in the company fails, otherwise success, each exactly in its case |
| CompanyUsersPage.ChangeRoleResponse | Argojob/Pages/EmployerManagement/CompanyManagement/CompanyUsers.cshtml.cs:106-133 | after the access check: changing another user's Admin role is refused, every other change succeeds |
| CompanyUsersPage.RemoveUserResponse | Argojob/Pages/EmployerManagement/CompanyManagement/CompanyUsers.cshtml.cs:135-169 | after the access check: removing oneself is refused, removing another Admin is refused, every other removal succeeds |
| CompanyUsersPage.OwnerProtected | Argojob/Pages/EmployerManagement/CompanyManagement/CompanyUsers.cshtml.cs:121-127 | another user can neither change the role of nor remove a member with role Admin |
| CompanyUsersPage.CompanyUsersModel.constructor | Argojob/Pages/EmployerManagement/CompanyManagement/CompanyUsers.cshtml.cs:23-28 | the route key, no name and no rows |
| CompanyUsersPage.CompanyUsersModel.OnGet | Argojob/Pages/EmployerManagement/CompanyManagement/CompanyUsers.cshtml.cs:30-66 | a refused caller is answered as the access check says, a missing company is not found, both changing nothing; otherwise the company's name and its member rows |
| CompanyUsersPage.CompanyUsersModel.OnPostAddUser | Argojob/Pages/EmployerManagement/CompanyManagement/CompanyUsers.cshtml.cs:68-104 | answers as the add rule says; only on success for a stored company is one membership with the role and time appended under the next key |
| CompanyUsersPage.CompanyUsersModel.OnPostChangeRole | Argojob/Pages/EmployerManagement/CompanyManagement/CompanyUsers.cshtml.cs:106-133 | answers as the role rule says; only on success for an actual member does that membership's role change, in place |
| CompanyUsersPage.CompanyUsersModel.OnPostRemoveUser | Argojob/Pages/EmployerManagement/CompanyManagement/CompanyUsers.cshtml.cs:135-169 | answers as the removal rule says; only on success for an actual member is that membership removed |
| MyCompaniesPage.ItemOf | Argojob/Pages/CompanyManagement/MyCompanies.cshtml.cs:74-84 | the card copies the company's fields and counts its active vacancies |
| MyCompaniesPage.ItemsOf | Argojob/Pages/CompanyManagement/MyCompanies.cshtml.cs:71-85 | one card per company, in order |
| MyCompaniesPage.VerifiedCount | Argojob/Pages/CompanyManagement/MyCompanies.cshtml.cs:52 | never more than the companies listed |
| MyCompaniesPage.VerifiedCountCounts | Argojob/Pages/CompanyManagement/MyCompanies.cshtml.cs:52 | the counter is the length of the listing narrowed to its verified companies |
| MyCompaniesPage.SumVacancies | Argojob/Pages/CompanyManagement/MyCompanies.cshtml.cs:55-58 | the loop adds the active vacancies of every listed company to the running total |
| MyCompaniesPage.CountUnion | Argojob/Pages/CompanyManagement/MyCompanies.cshtml.cs:55-58 | counting the active vacancies of one more company adds exactly that company's count |
| MyCompaniesPage.TotalActiveCounts | Argojob/Pages/CompanyManagement/MyCompanies.cshtml.cs:55-58 | for companies with distinct keys, the summed counts equal the number of active vacancies belonging to any listed company |
| MyCompaniesPage.LoadPage | Argojob/Pages/CompanyManagement/MyCompanies.cshtml.cs:60-87 | the page is clamped to the page count and the cards are those of the page's window, at most nine |
| MyCompaniesPage.AppendItems | Argojob/Pages/CompanyManagement/MyCompanies.cshtml.cs:71-85 | the loop appends the cards of the page's companies, in order, to what was shown |
| MyCompaniesPage.Load | Argojob/Pages/CompanyManagement/MyCompanies.cshtml.cs:44-88 | the total, the verified count, the vacancy sum, the page count, the clamped page and the cards, all from the caller's companies |
| MyCompaniesPage.MemberBlocksDelete | Argojob/Pages/CompanyManagement/MyCompanies.cshtml.cs:95-107 | a company the caller may delete is stored and still has a membership row pointing at it, which the store's restrict rule protects |
| MyCompaniesPage.Purged | Argojob/Pages/CompanyManagement/MyCompanies.cshtml.cs:107 | the company is removed together with its memberships |
| MyCompaniesPage.PurgedCompanyGone | Argojob/Pages/CompanyManagement/MyCompanies.cshtml.cs:107 | removing a company without vacancies together with its memberships keeps the store consistent and leaves neither the company nor any membership of it |
| MyCompaniesPage.DeleteWithMemberships | Argojob/Pages/CompanyManagement/MyCompanies.cshtml.cs:90-111 | forbidden for a non-member and a server error for a company with vacancies, both changing nothing; otherwise the company and its memberships are removed and the page redirects with the notice |
| MyCompaniesPage.Purge | Argojob/Pages/CompanyManagement/MyCompanies.cshtml.cs:107 | the store becomes exactly the purged one and stays consistent |
| MyCompaniesPage.MyCompaniesModel.constructor | Argojob/Pages/CompanyManagement/MyCompanies.cshtml.cs:20-31 | the query's page, zero counters and no cards |
| MyCompaniesPage.MyCompaniesModel.OnGet | Argojob/Pages/CompanyManagement/MyCompanies.cshtml.cs:33-42 | nothing changes without a caller; otherwise the counters, the page and the cards of the caller's companies |
| MyCompaniesPage.MyCompaniesModel.LoadCompanies | Argojob/Pages/CompanyManagement/MyCompanies.cshtml.cs:44-88 | sets the total, the verified count, the vacancy sum, the page count, the clamped page and the cards from the listing |
| MyCompaniesPage.MyCompaniesModel.OnPostDelete | Argojob/Pages/CompanyManagement/MyCompanies.cshtml.cs:90-111 | as written, forbidden for a non-member and otherwise a server error from the rejected delete; the store never changes |
| EmployeeMenuPage.ChangedAt | Argojob/Pages/EmployeeManagement/EmployeeManagementMenu.cshtml.cs:49 | the last change time, or the creation time when the resume was never updated |
| EmployeeMenuPage.ItemOf | Argojob/Pages/EmployeeManagement/EmployeeManagementMenu.cshtml.cs:40-49 | the card copies the resume's key, title and flags, shows "Не указана" as specialization and for a missing salary, 0 for missing experience, and the last change time |
| EmployeeMenuPage.ItemsOf | Argojob/Pages/EmployeeManagement/EmployeeManagementMenu.cshtml.cs:40-49 | one card per resume, in order |
| EmployeeMenuPage.ChangedLaterOrders | Argojob/Pages/EmployeeManagement/EmployeeManagementMenu.cshtml.cs:50 | ordering by change time, latest first, is a total preorder |
| EmployeeMenuPage.ResumesOrdered | Argojob/Pages/EmployeeManagement/EmployeeManagementMenu.cshtml.cs:36-51 | the resume cards run from the latest change to the earliest |
| EmployeeMenuPage.ResumesListed | Argojob/Pages/EmployeeManagement/EmployeeManagementMenu.cshtml.cs:36-51 | exactly the caller's resumes are shown, each once |
| EmployeeMenuPage.ResumesCounted | Argojob/Pages/EmployeeManagement/EmployeeManagementMenu.cshtml.cs:38-50 | the ordered listing holds as many resumes as the caller owns |
| EmployeeMenuPage.Recent | Argojob/Pages/EmployeeManagement/EmployeeManagementMenu.cshtml.cs:59-61 | at most five applications, fewer only when the caller has fewer, each a distinct row of the caller's listing (a sub-multiset of it) |
| EmployeeMenuPage.RecentAreNewest | Argojob/Pages/EmployeeManagement/EmployeeManagementMenu.cshtml.cs:55-61 | the recent applications are the caller's own, newest first, and none left out is newer than one shown |
| EmployeeMenuPage.RecentItemOf | Argojob/Pages/EmployeeManagement/EmployeeManagementMenu.cshtml.cs:62-72 | the row copies the application's key, vacancy and date, its menu status name and lower-case status code, and the vacancy's title, salary and company name |
| EmployeeCountersPage.RecentOf | Argojob/Pages/EmployeeManagementMenu.cshtml.cs:65-71 | the row shows the vacancy's key, title and salary, and its company's name or "Не указано" |
| EmployeeCountersPage.RecentsOf | Argojob/Pages/EmployeeManagementMenu.cshtml.cs:65-71 | one row per vacancy, in order |
| EmployeeCountersPage.RecentWithinActive | Argojob/Pages/EmployeeManagementMenu.cshtml.cs:49-63 | the recent block holds at most three vacancies and no more than the active counter, and exactly three when at least three are active |
| EmployeeCountersPage.Counters | Argojob/Pages/EmployeeManagementMenu.cshtml.cs:39-57 | the user's resumes and applications and the board's active vacancies, counted |
| EmployeeCountersPage.LoadRecent | Argojob/Pages/EmployeeManagementMenu.cshtml.cs:59-72 | the rows of the three newest active vacancies |
| EmployeeCountersPage.EmployeeCountersModel.constructor | Argojob/Pages/EmployeeManagementMenu.cshtml.cs:20-25 | every counter zero and no recent vacancies |
| EmployeeCountersPage.EmployeeCountersModel.OnGet | Argojob/Pages/EmployeeManagementMenu.cshtml.cs:27-37 | nothing changes without a signed-in user; otherwise the counters, the placeholders 12 and 3, and the recent rows are set |
| EmployeeCountersPage.EmployeeCountersModel.Load | Argojob/Pages/EmployeeManagementMenu.cshtml.cs:35-72 | the counters are the counts of the user's resumes and applications and of the active vacancies, the placeholders are 12 and 3, and the recent rows are those of the three newest active vacancies |
| EmployeeCountersPage.EmployeeCountersModel.SetCounters | Argojob/Pages/EmployeeManagementMenu.cshtml.cs:43-56 | the three counters take the given counts, the placeholders are 12 and 3, and the recent rows are left as they were |
| EmployeeMenuPage.RecentCodeParses | Argojob/Pages/EmployeeManagement/EmployeeManagementMenu.cshtml.cs:69 | the status code shown parses back to the application's status |
| EmployeeMenuPage.VacancyFound | Argojob/Pages/EmployeeManagement/EmployeeManagementMenu.cshtml.cs:65 | in a consistent store every application's vacancy is stored, so the row shows its title |
| EmployeeMenuPage.RecentItemsOf | Argojob/Pages/EmployeeManagement/EmployeeManagementMenu.cshtml.cs:59-72 | one row per recent application, in order |
| EmployeeMenuPage.LoadRecent | Argojob/Pages/EmployeeManagement/EmployeeManagementMenu.cshtml.cs:53-73 | the total counts all the caller's applications and the rows are those of the five newest |
| EmployeeMenuPage.EmployeeMenuModel.constructor | Argojob/Pages/EmployeeManagement/EmployeeManagementMenu.cshtml.cs:20-22 | no resumes, no rows and a zero total |
| EmployeeMenuPage.EmployeeMenuModel.OnGet | Argojob/Pages/EmployeeManagement/EmployeeManagementMenu.cshtml.cs:24-34 | nothing changes without a caller; otherwise the caller's ordered resumes, the total of their applications and the five newest |
| EmployeeMenuPage.OnPostDeleteResume | Argojob/Pages/EmployeeManagement/EmployeeManagementMenu.cshtml.cs:89-101 | always redirects; the resume is removed, with the store's rules for its applications, exactly when it is stored and the caller's, and otherwise nothing changes |
| EmployerMenuPage.CompanyItemOf | Argojob/Pages/EmployerManagement/EmployerManagementMenu.cshtml.cs:83-93 | the card copies the company's fields and counts its active vacancies |
| EmployerMenuPage.CompanyItemsOf | Argojob/Pages/EmployerManagement/EmployerManagementMenu.cshtml.cs:79-94 | one card per company of the caller, in order |
| EmployerMenuPage.Selection | Argojob/Pages/EmployerManagement/EmployerManagementMenu.cshtml.cs:53-57 | a requested company stays selected; without a request the first card is selected, and nothing only when there are no cards |
| EmployerMenuPage.FindCompany | Argojob/Pages/EmployerManagement/EmployerManagementMenu.cshtml.cs:61 | the first card with the key, or none exactly when no card has it |
| EmployerMenuPage.DefaultSelectionShown | Argojob/Pages/EmployerManagement/EmployerManagementMenu.cshtml.cs:53-61 | with no request the selected card is the first one |
| EmployerMenuPage.CompanyVacancies | Argojob/Pages/EmployerManagement/EmployerManagementMenu.cshtml.cs:99-101 | exactly the company's vacancies, each once (a permutation of the filtered rows), latest posted first |
| EmployerMenuPage.CardCountAtMostListed | Argojob/Pages/EmployerManagement/EmployerManagementMenu.cshtml.cs:81-99 | a company card's active count never exceeds the vacancies listed for the company |
| EmployerMenuPage.VacancyItemOf | Argojob/Pages/EmployerManagement/EmployerManagementMenu.cshtml.cs:108-121 | the row copies the vacancy's fields, names its company and counts its applications |
| EmployerMenuPage.VacancyItemsOf | Argojob/Pages/EmployerManagement/EmployerManagementMenu.cshtml.cs:101-122 | one row per vacancy, in order |
| EmployerMenuPage.VacancyIds | Argojob/Pages/EmployerManagement/EmployerManagementMenu.cshtml.cs:127-128 | exactly the keys of the company's vacancies |
| EmployerMenuPage.Gather | Argojob/Pages/EmployerManagement/EmployerManagementMenu.cshtml.cs:135-140 | the loop concatenates the applications of each vacancy key, in key order |
| EmployerMenuPage.CompanyApplicationsMembers | Argojob/Pages/EmployerManagement/EmployerManagementMenu.cshtml.cs:127-140 | the gathered applications are exactly those to the company's vacancies, the same set the repository's by-company query returns |
| EmployerMenuPage.CompanyApplications | Argojob/Pages/EmployerManagement/EmployerManagementMenu.cshtml.cs:127-140 | every gathered application is stored and is to one of the company's vacancies |
| EmployerMenuPage.Recent | Argojob/Pages/EmployerManagement/EmployerManagementMenu.cshtml.cs:142-145 | at most ten applications, fewer only when the company has fewer, each a distinct row of the gathered applications (a sub-multiset of them) |
| EmployerMenuPage.RecentAreNewest | Argojob/Pages/EmployerManagement/EmployerManagementMenu.cshtml.cs:142-145 | the recent applications are newest first and none left out is newer than one shown |
| EmployerMenuPage.RecentOfCompany | Argojob/Pages/EmployerManagement/EmployerManagementMenu.cshtml.cs:125-145 | every recent application is to one of the company's vacancies |
| EmployerMenuPage.RecentItemOf | Argojob/Pages/EmployerManagement/EmployerManagementMenu.cshtml.cs:147-165 | the row copies the application's key, vacancy and date, shows the menu status name and lower-case code, the resume flag exactly when a resume is attached, "Не указано" without a vacancy, and the applicant's profile name or user id |
| EmployerMenuPage.RecentCodeParses | Argojob/Pages/EmployerManagement/EmployerManagementMenu.cshtml.cs:163 | the status code shown parses back to the application's status |
| EmployerMenuPage.RecentItemsOf | Argojob/Pages/EmployerManagement/EmployerManagementMenu.cshtml.cs:147-166 | one row per recent application, in order |
| EmployerMenuPage.LoadRecent | Argojob/Pages/EmployerManagement/EmployerManagementMenu.cshtml.cs:125-167 | the rows are those of the company's ten newest applications |
| EmployerMenuPage.View | Argojob/Pages/EmployerManagement/EmployerManagementMenu.cshtml.cs:43-68 | the caller's company cards and the selection; without a selection no card, vacancies or recent rows; at most ten recent rows |
| EmployerMenuPage.ViewOfSelection | Argojob/Pages/EmployerManagement/EmployerManagementMenu.cshtml.cs:59-64 | with a selection the page shows its card, its vacancies and its recent applications |
| EmployerMenuPage.Load | Argojob/Pages/EmployerManagement/EmployerManagementMenu.cshtml.cs:43-68 | the loops build exactly the dashboard the view describes |
| EmployerMenuPage.Shows | Argojob/Pages/EmployerManagement/EmployerManagementMenu.cshtml.cs:59-64 | without a selection the previous card, vacancies and recent rows stay as they were |
| EmployerMenuPage.EmployerMenuModel.constructor | Argojob/Pages/EmployerManagement/EmployerManagementMenu.cshtml.cs:28-40 | the requested company, empty lists, no selected card and a zero count |
| EmployerMenuPage.EmployerMenuModel.OnGet | Argojob/Pages/EmployerManagement/EmployerManagementMenu.cshtml.cs:43-68 | nothing changes without a caller; otherwise the page shows the dashboard and the application count equals the number of recent rows |
| EmployerMenuPage.EmployerMenuModel.Show | Argojob/Pages/EmployerManagement/EmployerManagementMenu.cshtml.cs:59-67 | the fields hold the dashboard and the count equals the recent rows |
| EmployerMenuPage.OnPostActivateVacancy | Argojob/Pages/EmployerManagement/EmployerManagementMenu.cshtml.cs:229-235 | the vacancy under the key becomes active, with no ownership check, and nothing else changes |
| EmployerMenuPage.OnPostDeactivateVacancy | Argojob/Pages/EmployerManagement/EmployerManagementMenu.cshtml.cs:236-242 | the vacancy under the key becomes inactive, with no ownership check, and nothing else changes |
| EmployerCountersPage.SumApplications | Argojob/Pages/EmployerManagementMenu.cshtml.cs:48-55 | the loop's total is the sum of the listed vacancies' application counts |
| EmployerCountersPage.CountSplit | Argojob/Pages/EmployerManagementMenu.cshtml.cs:48-53 | counting the applications to one more vacancy adds exactly that vacancy's count |
| EmployerCountersPage.TotalCountsDistinct | Argojob/Pages/EmployerManagementMenu.cshtml.cs:48-53 | for vacancies with distinct keys, the sum equals the number of applications to any of them |
| EmployerCountersPage.ApplicationsCounted | Argojob/Pages/EmployerManagementMenu.cshtml.cs:41-55 | in a consistent store the counter is the number of applications to the vacancies the caller created, each counted once |
| EmployerCountersPage.EmployerCountersModel.constructor | Argojob/Pages/EmployerManagementMenu.cshtml.cs:19-21 | all three counters start at zero |
| EmployerCountersPage.EmployerCountersModel.OnGet | Argojob/Pages/EmployerManagementMenu.cshtml.cs:23-56 | nothing changes without a caller; otherwise the number of the caller's companies, of the vacancies they created, and the summed applications to those vacancies |
| MyVacanciesPage.Mine | Argojob/Pages/VacancyManagement/MyVacancies.cshtml.cs:49-52 | exactly the vacancies the caller created |
| MyVacanciesPage.ItemOf | Argojob/Pages/VacancyManagement/MyVacancies.cshtml.cs:71-82 | the card copies the vacancy's fields; the company is always "Не указано", because the query does not load it |
| MyVacanciesPage.ItemsOf | Argojob/Pages/VacancyManagement/MyVacancies.cshtml.cs:71-82 | one card per vacancy, in order |
| VacancyRepository.ActiveCount | Argojob/Pages/VacancyManagement/MyVacancies.cshtml.cs:56 | the number of switched-on vacancies is never more than the listing (the same count serves the public vacancies page) |
| MyVacanciesPage.InactiveCount | Argojob/Pages/VacancyManagement/MyVacancies.cshtml.cs:57 | never more than the listing |
| MyVacanciesPage.ActiveAndInactive | Argojob/Pages/VacancyManagement/MyVacancies.cshtml.cs:55-57 | active and inactive counts add up to the total, so the subtraction gives the inactive ones |
| MyVacanciesPage.Counters | Argojob/Pages/VacancyManagement/MyVacancies.cshtml.cs:55-58 | the total, the active count, the total minus it as the inactive count, and the summed views |
| MyVacanciesPage.PointChange | Argojob/Pages/VacancyManagement/MyVacancies.cshtml.cs:55-58 | changing one vacancy but not its creator changes the counters by exactly that vacancy's difference |
| MyVacanciesPage.ActiveCountSum | Argojob/Pages/VacancyManagement/MyVacancies.cshtml.cs:56 | counting the active vacancies is the same as summing one per active vacancy |
| MyVacanciesPage.PointChangeLength | Argojob/Pages/VacancyManagement/MyVacancies.cshtml.cs:55 | the user's list keeps its length when one vacancy changes but not its creator |
| MyVacanciesPage.PointChangeSum | Argojob/Pages/VacancyManagement/MyVacancies.cshtml.cs:56-58 | any per-vacancy sum over the user's list moves by exactly the changed vacancy's difference, and only when it is the user's |
| MyVacanciesPage.Toggled | Argojob/Pages/VacancyManagement/MyVacancies.cshtml.cs:109-110 | a missing key changes nothing |
| MyVacanciesPage.ToggledLookup | Argojob/Pages/VacancyManagement/MyVacancies.cshtml.cs:109-110 | the key finds the vacancy with its active flag flipped and every other key finds what it found before |
| MyVacanciesPage.ToggleTwice | Argojob/Pages/VacancyManagement/MyVacancies.cshtml.cs:109-110 | toggling twice restores the vacancies |
| MyVacanciesPage.ToggleCounters | Argojob/Pages/VacancyManagement/MyVacancies.cshtml.cs:55-58 | toggling an own vacancy keeps the total and the views and moves the active count by one in the right direction |
| MyVacanciesPage.ViewCounted | Argojob/Pages/VacancyManagement/MyVacancies.cshtml.cs:58 | a view of an own vacancy adds one to the views sum and leaves the other counters alone |
| MyVacanciesPage.RemovedVacancyGone | Argojob/Pages/VacancyManagement/MyVacancies.cshtml.cs:129 | after a delete the vacancy is gone together with its requirements, offers and tag links |
| MyVacanciesPage.LoadPage | Argojob/Pages/VacancyManagement/MyVacancies.cshtml.cs:60-82 | the page is clamped to the page count and the cards are those of the page's window, at most ten |
| MyVacanciesPage.Load | Argojob/Pages/VacancyManagement/MyVacancies.cshtml.cs:46-83 | the counters, the page count, the clamped page and the cards, all from the caller's vacancies |
| MyVacanciesPage.MyVacanciesModel.constructor | Argojob/Pages/VacancyManagement/MyVacancies.cshtml.cs:21-32 | the query's page, zero counters and no cards |
| MyVacanciesPage.MyVacanciesModel.OnGet | Argojob/Pages/VacancyManagement/MyVacancies.cshtml.cs:35-44 | nothing changes without a caller; otherwise the counters and the page of the caller's vacancies |
| MyVacanciesPage.MyVacanciesModel.LoadVacancies | Argojob/Pages/VacancyManagement/MyVacancies.cshtml.cs:46-83 | sets the counters, the page count, the clamped page and the cards from the listing |
| MyVacanciesPage.OnPostToggleStatus | Argojob/Pages/VacancyManagement/MyVacancies.cshtml.cs:99-117 | not found, changing nothing, unless the caller created the vacancy; otherwise only its active flag flips and the notice says which way |
| MyVacanciesPage.OnPostDelete | Argojob/Pages/VacancyManagement/MyVacancies.cshtml.cs:119-133 | not found unless the caller created the vacancy; a server error, changing nothing, when applications block the delete; otherwise the vacancy and its dependants are removed |
| MyResumesPage.ItemOf | Argojob/Pages/EmployeeManagement/ResumeManagement/MyResumes.cshtml.cs:65-78 | the card copies the resume's fields |
| MyResumesPage.ItemsOf | Argojob/Pages/EmployeeManagement/ResumeManagement/MyResumes.cshtml.cs:65-78 | one card per resume, in order |
| MyResumesPage.VisibleCount | Argojob/Pages/EmployeeManagement/ResumeManagement/MyResumes.cshtml.cs:51 | never more than the listing |
| MyResumesPage.VisibleCountSearch | Argojob/Pages/EmployeeManagement/ResumeManagement/MyResumes.cshtml.cs:51 | the active count is the number of the caller's resumes the public resume search shows |
| MyResumesPage.LoadPage | Argojob/Pages/EmployeeManagement/ResumeManagement/MyResumes.cshtml.cs:54-78 | the page is clamped to the page count and the cards are those of the page's window, at most nine |
| MyResumesPage.Load | Argojob/Pages/EmployeeManagement/ResumeManagement/MyResumes.cshtml.cs:43-79 | the total, the active count, the page count, the clamped page and the cards |
| MyResumesPage.DetachKeepsCount | Argojob/Pages/EmployeeManagement/ResumeManagement/MyResumes.cshtml.cs:105 | detaching a deleted resume from applications keeps every applicant's application count |
| MyResumesPage.DeletedResumeGone | Argojob/Pages/EmployeeManagement/ResumeManagement/MyResumes.cshtml.cs:105 | after the delete the resume's key is gone, no application refers to it, and every application is still stored |
| MyResumesPage.DeleteKeepsApplicationsCount | Argojob/Pages/EmployeeManagement/ResumeManagement/MyResumes.cshtml.cs:52 | deleting a resume does not change the applications counter |
| MyResumesPage.MyResumesModel.constructor | Argojob/Pages/EmployeeManagement/ResumeManagement/MyResumes.cshtml.cs:19-29 | the query's page, zero counters and no cards |
| MyResumesPage.MyResumesModel.OnGet | Argojob/Pages/EmployeeManagement/ResumeManagement/MyResumes.cshtml.cs:32-41 | nothing changes without a caller; otherwise the counters and the page of the caller's resumes |
| MyResumesPage.MyResumesModel.LoadResumes | Argojob/Pages/EmployeeManagement/ResumeManagement/MyResumes.cshtml.cs:43-79 | sets the total, the active count, the applications count, the page count, the clamped page and the cards |
| MyResumesPage.OnPostDelete | Argojob/Pages/EmployeeManagement/ResumeManagement/MyResumes.cshtml.cs:95-109 | not found, changing nothing, unless the resume is stored and the caller's; otherwise it is removed and its applications keep their rows without it |
| ResumeEditPage.DefaultInput | Argojob/Pages/EmployeeManagement/ResumeManagement/ResumeEdit.cshtml.cs:32-92 | an empty form is active and published, with no key, no contacts, no experience and no category |
| ResumeEditPage.Flag | Argojob/Pages/EmployeeManagement/ResumeManagement/ResumeEdit.cshtml.cs:36-61 | one error exactly when the check fails, none otherwise |
| ResumeEditPage.ValidationErrors | Argojob/Pages/EmployeeManagement/ResumeManagement/ResumeEdit.cshtml.cs:36-61 | no errors exactly when title and full name are not blank, a given phone and e-mail are well formed, and a given experience lies between 0 and 60 |
| ResumeEditPage.Reported | Argojob/Pages/EmployeeManagement/ResumeManagement/ResumeEdit.cshtml.cs:36-61 | each field error is reported exactly when its check fails |
| ResumeEditPage.InputOf | Argojob/Pages/EmployeeManagement/ResumeManagement/ResumeEdit.cshtml.cs:120-138 | the form carries every field of the stored resume and its key |
| ResumeEditPage.Edited | Argojob/Pages/EmployeeManagement/ResumeManagement/ResumeEdit.cshtml.cs:185-203 | the edit keeps the owner and the creation time and stamps the update time |
| ResumeEditPage.NewResumeOf | Argojob/Pages/EmployeeManagement/ResumeManagement/ResumeEdit.cshtml.cs:211-232 | the new resume belongs to the caller, is created now and was never updated |
| ResumeEditPage.EditedRoundTrip | Argojob/Pages/EmployeeManagement/ResumeManagement/ResumeEdit.cshtml.cs:185-203 | reading back an edited resume gives the submitted form |
| ResumeEditPage.CreatedRoundTrip | Argojob/Pages/EmployeeManagement/ResumeManagement/ResumeEdit.cshtml.cs:211-232 | reading back a created resume gives the submitted form |
| ResumeEditPage.UnchangedFormOnlyStamps | Argojob/Pages/EmployeeManagement/ResumeManagement/ResumeEdit.cshtml.cs:185-203 | saving the form as loaded changes only the update time |
| ResumeEditPage.EditTwice | Argojob/Pages/EmployeeManagement/ResumeManagement/ResumeEdit.cshtml.cs:185-203 | saving the same form twice is saving it once at the later time |
| ResumeEditPage.EditResponse | Argojob/Pages/EmployeeManagement/ResumeManagement/ResumeEdit.cshtml.cs:175-207 | a form without a key fails with the "no value" error; not found exactly when the resume is missing or not the caller's; success otherwise |
| ResumeEditPage.Save | Argojob/Pages/EmployeeManagement/ResumeManagement/ResumeEdit.cshtml.cs:185-205 | only the edited resume changes, in place |
| ResumeEditPage.Edit | Argojob/Pages/EmployeeManagement/ResumeManagement/ResumeEdit.cshtml.cs:175-207 | answers as the edit rule says and changes only the edited resume, and only on success |
| ResumeEditPage.EditStored | Argojob/Pages/EmployeeManagement/ResumeManagement/ResumeEdit.cshtml.cs:175-205 | after a successful edit the key reads back the form and the caller as owner, and every other key finds what it found before |
| ResumeEditPage.ResumeEditModel.constructor | Argojob/Pages/EmployeeManagement/ResumeManagement/ResumeEdit.cshtml.cs:22-28 | the route key and the posted form |
| ResumeEditPage.ResumeEditModel.OnGet | Argojob/Pages/EmployeeManagement/ResumeManagement/ResumeEdit.cshtml.cs:94-142 | challenge without a caller, an empty form for a new resume, not found for a missing one, forbidden for another user's, otherwise the form filled from the resume |
| ResumeEditPage.ResumeEditModel.OnPost | Argojob/Pages/EmployeeManagement/ResumeManagement/ResumeEdit.cshtml.cs:157-249 | an invalid form shows the page and a missing caller is challenged, both changing nothing; with a route key a success replaces exactly the stored resume by its edited form and any other answer changes nothing; without one it appends the caller's new resume under the next key and records the key in the form |
| VacancyEditPage.LinkedTagIds | Argojob/Pages/VacancyManagement/VacancyEdit.cshtml.cs:124-126 | exactly the keys of the tags linked to the vacancy |
| VacancyEditPage.Edited | Argojob/Pages/VacancyManagement/VacancyEdit.cshtml.cs:206-213 | the vacancy takes the form's title, description, salary (or "Не указана"), seasonality and company, and keeps its views, date, active flag, category, location and creator |
| VacancyEditPage.LoadSaveRoundTrip | Argojob/Pages/VacancyManagement/VacancyEdit.cshtml.cs:206-222 | saving the form as loaded leaves the vacancy as it was, and the loaded requirement and offer lists come back unchanged when their texts are already trimmed and non-blank |
| VacancyEditPage.NewVacancyOf | Argojob/Pages/VacancyManagement/VacancyEdit.cshtml.cs:288-301 | the new vacancy is active, unviewed, posted now, created by the caller, and takes the form's fields with "Не указана" for a missing salary |
| VacancyEditPage.ContactField | Argojob/Pages/VacancyManagement/VacancyEdit.cshtml.cs:266-279 | a blank contact keeps the stored one, any other replaces it |
| VacancyEditPage.ContactedKeeps | Argojob/Pages/VacancyManagement/VacancyEdit.cshtml.cs:264-285 | copying contacts changes only the three contact fields, each only when the form gives a non-blank value, and copying twice is copying once |
| VacancyEditPage.Contacted | Argojob/Pages/VacancyManagement/VacancyEdit.cshtml.cs:264-285 | only the three contact fields change, each to the stored value or to the form's |
| VacancyEditPage.SelectedNames | Argojob/Pages/VacancyManagement/VacancyEdit.cshtml.cs:242-246 | at most one name per stored tag, and one for every tag when all keys are selected |
| VacancyEditPage.InputOf | Argojob/Pages/VacancyManagement/VacancyEdit.cshtml.cs:106-133 | the form holds the vacancy's key, fields, requirement and offer texts in order and linked tag keys, and the company's contacts when the company is stored, the previous ones otherwise |
| VacancyEditPage.SelectedNamesMembers | Argojob/Pages/VacancyManagement/VacancyEdit.cshtml.cs:242-246 | the selected names are exactly the names of stored tags whose keys were selected |
| VacancyEditPage.EditResponse | Argojob/Pages/VacancyManagement/VacancyEdit.cshtml.cs:196-204 | a form without a key fails with the "no value" error; not found exactly when the vacancy is missing or not the caller's; success otherwise |
| VacancyEditPage.CreateResponse | Argojob/Pages/VacancyManagement/VacancyEdit.cshtml.cs:256-262 | "Компания не найдена" exactly when the chosen company is not stored, success otherwise |
| VacancyEditPage.MemberCompanyFound | Argojob/Pages/VacancyManagement/VacancyEdit.cshtml.cs:256-262 | in a consistent store a company the caller belongs to is always found |
| VacancyEditPage.SelectedLinked | Argojob/Pages/VacancyManagement/VacancyEdit.cshtml.cs:240-249 | attaching keeps every existing link and links every selected stored tag's name to the vacancy |
| VacancyEditPage.EditReplacesLists | Argojob/Pages/VacancyManagement/VacancyEdit.cshtml.cs:217-237 | after the edit the vacancy's requirements and offers are exactly the cleaned lists, in order |
| VacancyEditPage.FreshKeyUnlisted | Argojob/Pages/VacancyManagement/VacancyEdit.cshtml.cs:303 | no requirement or offer refers to the key a new vacancy receives |
| VacancyEditPage.CreateListsTexts | Argojob/Pages/VacancyManagement/VacancyEdit.cshtml.cs:303-323 | after creation the new vacancy's requirements and offers are exactly the cleaned lists, in order |
| VacancyEditPage.ClearLists | Argojob/Pages/VacancyManagement/VacancyEdit.cshtml.cs:218-229 | exactly the vacancy's requirements and offers are removed |
| VacancyEditPage.AddRequirementList | Argojob/Pages/VacancyManagement/VacancyEdit.cshtml.cs:223-226 | the requirements are appended under consecutive new keys |
| VacancyEditPage.AddOfferList | Argojob/Pages/VacancyManagement/VacancyEdit.cshtml.cs:234-237 | the offers are appended under consecutive new keys |
| VacancyEditPage.AddLists | Argojob/Pages/VacancyManagement/VacancyEdit.cshtml.cs:219-237 | requirements then offers are appended under consecutive new keys |
| VacancyEditPage.ReplaceLists | Argojob/Pages/VacancyManagement/VacancyEdit.cshtml.cs:217-237 | the vacancy's old requirements and offers are replaced by the new lists and nothing else changes |
| VacancyEditPage.AttachSelected | Argojob/Pages/VacancyManagement/VacancyEdit.cshtml.cs:239-249 | only tags and tag links may change, nothing changes without a selection, and the selected tags end up linked |
| VacancyEditPage.CleanLists | Argojob/Pages/VacancyManagement/VacancyEdit.cshtml.cs:219-233 | the lists keep their non-blank entries, trimmed, and cleaning them again changes nothing |
| VacancyEditPage.Edit | Argojob/Pages/VacancyManagement/VacancyEdit.cshtml.cs:196-251 | answers as the edit rule says; only on success are the fields, the lists and the tags updated |
| VacancyEditPage.CopyContacts | Argojob/Pages/VacancyManagement/VacancyEdit.cshtml.cs:264-285 | the company is rewritten only when a contact actually changes |
| VacancyEditPage.Create | Argojob/Pages/VacancyManagement/VacancyEdit.cshtml.cs:255-338 | answers as the creation rule says; on success the contacts, the vacancy, its lists and tags are stored and the new key is returned, otherwise nothing changes |
| VacancyEditPage.AddVacancyWithLists | Argojob/Pages/VacancyManagement/VacancyEdit.cshtml.cs:303-323 | the vacancy is stored under the next key, followed by its requirements and offers |
| VacancyEditPage.VacancyEditModel.constructor | Argojob/Pages/VacancyManagement/VacancyEdit.cshtml.cs:23-29 | the route key and the posted form |
| VacancyEditPage.VacancyEditModel.OnGet | Argojob/Pages/VacancyManagement/VacancyEdit.cshtml.cs:80-138 | challenge without a caller, an empty form for a new vacancy, not found for a missing one, forbidden for another user's, otherwise the form filled from the vacancy, its lists, tags and company contacts |
| VacancyEditPage.VacancyEditModel.OnPost | Argojob/Pages/VacancyManagement/VacancyEdit.cshtml.cs:168-352 | an invalid form, a missing caller and a company the caller does not belong to change nothing; with a route key it edits; without one it creates and records the new key in the form |
| CompanyRepository.CompanyNameOr | Argojob/Pages/Vacancies.cshtml.cs:141 | the stored company's name, or the page's fallback text ("Не указано", or "Не указана" on the employee menu) when no company is stored under the key |
| VacancyCards.Names | Argojob/Pages/Vacancies.cshtml.cs:144 | the tags' names, one per tag, in order |
| VacancyCards.NonEmpty | Argojob/Pages/Vacancies.cshtml.cs:144 | keeps exactly the non-empty names |
| VacancyCards.NonEmptyAppend | Argojob/Pages/Vacancies.cshtml.cs:144 | dropping empty names distributes over concatenation |
| VacancyCards.NonEmptyOne | Argojob/Pages/Vacancies.cshtml.cs:144 | a single name is kept exactly when it is not empty |
| VacancyCards.NonEmptyKeepsAll | Argojob/Pages/Vacancies.cshtml.cs:144 | a list without empty names is kept whole |
| VacancyCards.ListCard | Argojob/Pages/Vacancies.cshtml.cs:137-149 | the card copies the vacancy's fields, names its company and shows its linked tags' non-empty names |
| VacancyRepository.ActiveCountCounts | Argojob/Pages/Vacancies.cshtml.cs:65 | the counter is the number of active vacancies |
| VacanciesPage.CountersBounded | Argojob/Pages/Vacancies.cshtml.cs:65-84 | the seasonal counter and every category counter are at most the active counter |
| VacanciesPage.SeasonalityOf | Argojob/Pages/Vacancies.cshtml.cs:99-104 | "seasonal" filters seasonal vacancies, "permanent" the others, anything else does not filter |
| VacanciesPage.CategoryKey | Argojob/Pages/Vacancies.cshtml.cs:90-96 | no category for "all" and "сезонные"; otherwise a stored category whose name matches ignoring case, and none only when no name matches |
| VacanciesPage.KeysOf | Argojob/Pages/Vacancies.cshtml.cs:116 | the keys of the vacancies, in order |
| VacanciesPage.MatchingActive | Argojob/Pages/Vacancies.cshtml.cs:107-116 | every listed key belongs to an active vacancy that is seasonal under "сезонные" or "seasonal" and permanent under "permanent" |
| VacanciesPage.UnknownCategoryIgnored | Argojob/Pages/Vacancies.cshtml.cs:90-116 | a category name that matches nothing lists the same vacancies as "all" |
| VacanciesPage.BuildCards | Argojob/Pages/Vacancies.cshtml.cs:131-153 | the loop builds the cards of the page's keys, skipping keys not stored |
| VacanciesPage.CardsSkipMissing | Argojob/Pages/Vacancies.cshtml.cs:132-151 | at most one card per key, each for a stored listed vacancy, and exactly one per key when all are stored |
| VacanciesPage.PageCardsMatch | Argojob/Pages/Vacancies.cshtml.cs:118-153 | a page shows at most six cards, each for a matching stored vacancy |
| VacanciesPage.CardsOf | Argojob/Pages/Vacancies.cshtml.cs:132-151 | every card is the card of a stored vacancy whose key is among the page keys |
| VacanciesPage.ListingOf | Argojob/Pages/Vacancies.cshtml.cs:56-153 | the counters are the board's; there are no pages exactly when nothing matches; the page is clamped to 1..pages and kept when in range; at most six cards, each of a matching vacancy |
| VacanciesPage.CategoryTitle | Argojob/Pages/Vacancies.cshtml.cs:170-183 | the seven known filters get their own heading and any other gets "Вакансии в АПК" |
| VacanciesPage.LoadVacancies | Argojob/Pages/Vacancies.cshtml.cs:87-154 | the page count of the matching keys, the clamped page and the cards of its window |
| VacanciesPage.VacanciesModel.constructor | Argojob/Pages/Vacancies.cshtml.cs:23-54 | the query's category, search, type and page, zero counters and no cards |
| VacanciesPage.VacanciesModel.Show | Argojob/Pages/Vacancies.cshtml.cs:153 | the fields hold the listing and the query is untouched |
| VacanciesPage.VacanciesModel.OnGet | Argojob/Pages/Vacancies.cshtml.cs:56-60 | the page shows the counters and the listing of the query, which stays as asked |
| IndexPage.Resolved | Argojob/Pages/Index.cshtml.cs:64-91 | with navigations loaded, the company is found exactly when it is stored, with its name, and the tags are the names linked to the vacancy |
| IndexPage.CompanyOr | Argojob/Pages/Index.cshtml.cs:85 | the company's name, or "Не указано" without one |
| IndexPage.IndexCard | Argojob/Pages/Index.cshtml.cs:81-95 | the card copies the vacancy's fields, the company name or "Не указано", the linked tag names, and has no description |
| IndexPage.Cards | Argojob/Pages/Index.cshtml.cs:81-95 | one card per shown vacancy, in order |
| IndexPage.NextVisible | Argojob/Pages/Index.cshtml.cs:115 | adds three to the visible count with 32-bit wrap-around, so a count near the top becomes negative |
| IndexPage.AllListsActive | Argojob/Pages/Index.cshtml.cs:41-44 | with filter "all" and no term, exactly the active vacancies are listed |
| IndexPage.EmptyFilterListsNothing | Argojob/Pages/Index.cshtml.cs:44-55 | an empty filter matches no category, so nothing is listed |
| IndexPage.SearchIgnoresCase | Argojob/Pages/Index.cshtml.cs:59-69 | a term and its lower-case form find the same vacancies |
| IndexPage.HasMoreIffHidden | Argojob/Pages/Index.cshtml.cs:72-81 | at most the visible count of cards, each the matching vacancy in its place, and "more" exactly when some matching vacancy is not shown |
| IndexPage.LoadMoreExtends | Argojob/Pages/Index.cshtml.cs:112-119 | loading more keeps the cards shown and adds at most three, and adds some exactly when more were announced |
| IndexPage.CompanyFound | Argojob/Pages/Index.cshtml.cs:62-69 | with navigations loaded, an active vacancy in the filter whose company's name contains the term is listed and its card names the company |
| IndexPage.CompanySearchMissedAsWritten | Argojob/Pages/Index.cshtml.cs:40-69 | without loaded navigations a vacancy whose only hit is its company's name is not listed, and its card says "Не указано" |
| IndexPage.IndexModel.constructor | Argojob/Pages/Index.cshtml.cs:22-27 | filter "all", no term, six visible, no cards, nothing more |
| IndexPage.IndexModel.Show | Argojob/Pages/Index.cshtml.cs:72-95 | the fields hold the front page |
| IndexPage.IndexModel.OnGet | Argojob/Pages/Index.cshtml.cs:29-35 | the front page for the given filter and term ("all" and none by default) at the current visible count, read as written without the company and the tags |
| IndexPage.IndexModel.OnPostLoadMore | Argojob/Pages/Index.cshtml.cs:112-120 | the front page for the posted filter and the kept term with three more visible, read as written without the company and the tags |
| IndexPage.FrontOf | Argojob/Pages/Index.cshtml.cs:37-95 | the page keeps the filter, term and count; more remain exactly when more match than are visible; the cards are the first matches, in order, as many as are visible |
| VacancyDetailPage.ContactsOf | Argojob/Pages/VacancyDetail.cshtml.cs:64-66 | the company's three contacts, or none without a company |
| VacancyDetailPage.DetailOf | Argojob/Pages/VacancyDetail.cshtml.cs:27-39 | a detail exactly for a stored active vacancy, built from that vacancy |
| VacancyDetailPage.MapDetail | Argojob/Pages/VacancyDetail.cshtml.cs:41-68 | the detail's card is the vacancy's list card (key, title, salary, company, tags); it shows its requirement and offer texts in key order, and its company's contacts, none without a company |
| VacancyDetailPage.RequirementsComplete | Argojob/Pages/VacancyDetail.cshtml.cs:58-60 | the page lists exactly the texts of the requirements stored for the vacancy |
| VacancyDetailPage.OffersComplete | Argojob/Pages/VacancyDetail.cshtml.cs:61-63 | the page lists exactly the texts of the offers stored for the vacancy |
| VacancyDetailPage.DetailNamesCompany | Argojob/Pages/VacancyDetail.cshtml.cs:47-66 | in a consistent store the page names the vacancy's company, shows its contacts, and shows no empty tag name |
| VacancyDetailPage.VacancyDetailModel.constructor | Argojob/Pages/VacancyDetail.cshtml.cs:22-25 | the route key and no detail |
| VacancyDetailPage.VacancyDetailModel.OnGet | Argojob/Pages/VacancyDetail.cshtml.cs:27-39 | not found, keeping the old detail, unless the vacancy is stored and active; otherwise the page with its detail |
| DbSeed.SeedSizes | Argojob/Data/DbInitializer.cs:49-114 | five categories, eight locations and twenty-one tags, each within its columns' length limits |
| DbSeed.CategoryNamesDistinct | Argojob/Data/DbInitializer.cs:49-63 | the seeded category names are distinct, as the unique name index requires |
| DbSeed.TagNamesDistinct | Argojob/Data/DbInitializer.cs:84-114 | the seeded tag names are distinct, as the unique name index requires |
| DbSeed.SeedRows | Argojob/Data/DbInitializer.cs:49-114 | the seeded values receive consecutive keys in order |
| DbSeed.SeedRowsSnoc | Argojob/Data/DbInitializer.cs:49-114 | seeding one more value appends it under the next key |
| DbSeed.SeedCategories | Argojob/Data/DbInitializer.cs:49-63 | a table that already has categories is left alone; an empty one receives the seeded categories under consecutive new keys |
| DbSeed.SeedLocations | Argojob/Data/DbInitializer.cs:65-82 | a table that already has locations is left alone; an empty one receives the seeded locations under consecutive new keys |
| DbSeed.SeedTags | Argojob/Data/DbInitializer.cs:84-114 | a table that already has tags is left alone; an empty one receives the seeded tags under consecutive new keys |
| DbSeed.Initialize | Argojob/Data/DbInitializer.cs:10-32 | the new store is the seeded one: categories, locations and tags are all present, each empty table gets its full seed, a filled one is kept, and every other table is untouched |
| DbSeed.Seeded | Argojob/Data/DbInitializer.cs:10-114 | after seeding, categories, locations and tags are non-empty and the other eight tables are untouched |
| DbSeed.SeedTwice | Argojob/Data/DbInitializer.cs:10-114 | seeding a seeded store changes nothing |
| DbSeed.SeededContents | Argojob/Data/DbInitializer.cs:10-114 | an empty table receives its seed under consecutive keys, a filled one is kept, and a store with all three filled is unchanged |
| DbSeed.GetTagsForVacancy | Argojob/Data/DbInitializer.cs:532-546 | the loop links, in order, the first tag of each name that is stored, skipping unknown names |
| DbSeed.TagsForCount | Argojob/Data/DbInitializer.cs:532-546 | at most one link per name, and exactly one per name when every name is stored |
| DbSeed.TagsForNamed | Argojob/Data/DbInitializer.cs:532-546 | every link is to a stored tag whose name was asked for |
| DbSeed.ClearOrderRespectsKeys | Argojob/Data/DbInitializer.cs:34-47 | each of the eight tables is emptied once, and before every table it refers to |
| DbSeed.ClearExistingData | Argojob/Data/DbInitializer.cs:34-47 | the save succeeds exactly when there are no applications and no memberships, and then empties the eight tables; otherwise nothing changes |

## Left out
- Input and output: HTTP, Razor views, model binding, `TempData` notices and the e-mail sender are not modelled. Handlers take the signed-in user, the administrator role, the clock and the identity store's profiles as parameters and return a `Response`.
- ASP.NET Identity: sign-in, roles, `[Authorize]`, `UserManager` and the employer menu's `OnPostBecomeEmployeeAsync` (role assignment) are outside the store this model keeps.
- Data annotations on the forms (`[Required]`, `[Phone]`, `[EmailAddress]`, `[Range]`) are modelled only as far as the handlers branch on them. The format checks enter as the flags `phoneOk`, `emailOk` and `modelValid`, because they are framework code.
- Column widths: the `MaxLength` bounds of the entity classes are the `…Fits` predicates of `Entities`. The store does not reject an over-long value, because the database enforces widths at save time and the model does not include that check.
- Transactions and concurrency: every repository call saves at once, and two requests never interleave.
- `Repository.SaveChangesAsync`, `DeleteAsync(entity)` and `DeleteRangeAsync` are not modelled separately. Each modelled operation saves its own change, and removal goes by key.
- `GetAllAsync` is the table itself.
- `GetVacancyWithDetailsAsync` and the other `Include` navigations: a related row is found by its key in its own table (`GetById`, `Related`), not loaded into the entity.
- Lazy loading is not modelled: a navigation that is not included stays empty (see Findings).
- `GetVacanciesByCategoryAsync`, `GetVacanciesByLocationAsync` and the `CategoryRepository`/`LocationRepository` lookups by key are not modelled. They filter on `CategoryId`/`LocationId` columns, which the vacancy class no longer has since the migration that dropped those entities; the model follows the class, whose category and location are strings.
- `Resume.CategoryId` is kept as an optional integer with no foreign key to categories, because the migration that removed the category and location entities dropped that relation.
- Tag links keep their own key; the composite (vacancy, tag) pair is a unique index, not the key.
- String comparison: `Contains` and `ToLower` fold only ASCII A–Z and Cyrillic А–Я/Ё (`Text.Lower`). Database collation and culture rules are not modelled.
- Dates are integers (ticks). The display helpers `FormatDate` and `FormatPostedDate` read the clock and format text, and are not modelled.
- `LoadDropdowns` on the vacancy and resume edit pages fills select lists for the view only, and is not modelled.
- `EmployerMenuPage`: `OnPostSelectCompanyAsync` is a redirect carrying the chosen key back to `OnGet`, which is modelled with that key as input.
- `IndexPage`: `OnPostDetailsAsync` only sets a notice and redirects to the detail page, and is not modelled. `OnPostLoadMoreAsync` takes the posted filter as a string; a missing filter is not modelled.
- The `Salary ?? "Не указана"` fallbacks on the index and detail pages are dead code, because `Vacancy.Salary` is a non-null string; the model shows the salary as stored.
- EmployeeMenuPage.RecentItemOf: for a recent application whose vacancy is missing, the source dereferences `a.Vacancy.Title` (`EmployeeManagement/EmployeeManagementMenu.cshtml.cs:65`) and throws a `NullReferenceException`; the model shows empty texts instead. A consistent store rules this case out (`VacancyFound`).
- Requirements and offers on the detail page (`VacancyDetailPage.MapDetail`) and in the vacancy edit form (`VacancyEditPage.InputOf`) are listed in key order. The source loads `vacancy.Requirements` and `vacancy.Offers` without `OrderBy`, so the model fixes one order.
- `DbSeed`: the sample companies and vacancies of `DbInitializer.cs:25-31` are commented out in the source, so they are not modelled. `ClearExistingData` is modelled, though the initializer never calls it (`DbInitializer.cs:16`).
- The implementation of the company membership queries (`IsUserInCompanyAsync`, `GetUserRoleInCompanyAsync`, `AddUserToCompanyAsync`, `RemoveUserFromCompanyAsync`, `UpdateUserRoleAsync`) is not part of this model. They are modelled from their declarations in `ICompanyRepository.cs` as the obvious queries and updates on the membership table.
- ApplicationLists.CoverLetterPreview: lengths count Dafny characters (Unicode scalar values), while `Length` and `Substring` count UTF-16 code units; a letter with characters outside the Basic Multilingual Plane is cut at a different place, and the source may split a surrogate pair.
- VacancyEditPage.AttachSelected: this and the `Edit`, `Create` and `OnPost` paths that call it use the corrected tag loop (`TagRepository.AddTagsToVacancy`), not the one as written. The store's unique tag-name index compares names exactly, so it admits two stored tags whose names differ only in case; when both are selected the written loop links the first one twice and its save fails ("Ошибка: …" and a rollback), whereas the model succeeds.
- VacancyRepository.IncrementViews: the counter is an unbounded integer; the 32-bit wrap-around of `ViewsCount + 1` at `int.MaxValue` is not modelled.
- MyVacanciesPage.Counters: `TotalViews` is an unbounded sum; the overflow exception LINQ's `Sum` raises past `int.MaxValue` is not modelled.
- MyCompaniesPage.SumVacancies: the total is an unbounded sum, so an overflow past `int.MaxValue` is not modelled.
- EmployerCountersPage.SumApplications: the total is an unbounded sum, so an overflow past `int.MaxValue` is not modelled.

## Findings
| source | as written | input that shows it | evidently intended | confidence | as-written member | corrected member |
|---|---|---|---|---|---|---|
| Argojob/Repositories/TagRepository.cs:51-78 | a link added for a found tag is only added to the context, so the "already linked" query does not see it; two names that find the same tag (names differing only in case) add the same link twice, and the next save, the one `AddAsync` makes for a new tag in mid-loop or the final one, is refused by the unique (VacancyId, TagId) index of `ApplicationDbContext.cs:60-63` | tag 1 "Java" not yet linked to the vacancy, names ["Java", "java", "Kotlin"] | each tag is linked once, whatever the case of the names | not executed | TagRepository.MidLoopSaveFailsAsWritten | TagRepository.AddTagsToVacancy |
| Argojob/Pages/CompanyManagement/MyCompanies.cshtml.cs:107 | the delete is reached only by a member, whose membership row refers to the company; the membership-to-company relation is restricting (`ApplicationDbContext.cs:119-123`), so the delete always fails and the "not found" branch is unreachable | any company the caller is a member of | the company's memberships go first, then the company (when it has no vacancies) | not executed | MyCompaniesPage.MemberBlocksDelete | MyCompaniesPage.DeleteWithMemberships |
| Argojob/Pages/Index.cshtml.cs:40-41 | the vacancies are read by `GetAllAsync` without `Include`, and lazy loading is not configured (`Program.cs:14-15`), so `v.Company` is null and the tags are empty: a search on a company's name finds nothing and every card says "Не указано" | vacancy 1, active, with empty texts, of company 7 "Agro"; search "agro" | the company and its tags are resolved, so the search finds the vacancy and the card names the company | not executed | IndexPage.CompanySearchMissedAsWritten | IndexPage.CompanyFound |
