/**
 * The post list page (post-list.component.ts): requests pages of four posts and
 * shows the answer, or leaves for the login page when the request fails.
 */
module PostList {
  import opened Models
  import PageList

  const POSTS_PAGE_SIZE: int := 4
  const LOAD_FAILED: string := "Failed to load posts"
  const LOGIN_ROUTE: string := "/login"

  class PostListComponent {
    var posts: seq<PostDto>
    var loading: bool
    var errorMessage: string
    var pages: seq<int>
    var currentPage: int
    /** The `getPosts(page, pageSize)` requests issued, oldest first. */
    var requests: seq<(int, int)>
    /** The routes navigated to, oldest first. */
    var navigations: seq<string>

    constructor ()
      ensures posts == [] && loading && errorMessage == "" && pages == [] && currentPage == 1
      ensures requests == [] && navigations == []
    {
      posts := [];
      loading := true;
      errorMessage := "";
      pages := [];
      currentPage := 1;
      requests := [];
      navigations := [];
    }

    /** `getPosts(page, pageSize)`: shows the loading state and issues the request. */
    method GetPosts(page: int, pageSize: int)
      modifies this
      ensures loading
      ensures requests == old(requests) + [(page, pageSize)]
      ensures posts == old(posts) && pages == old(pages) && currentPage == old(currentPage)
      ensures errorMessage == old(errorMessage) && navigations == old(navigations)
    {
      loading := true;
      requests := requests + [(page, pageSize)];
    }

    /** `ngOnInit()`: the first page of four posts. */
    method NgOnInit()
      modifies this
      ensures loading
      ensures requests == old(requests) + [(1, POSTS_PAGE_SIZE)]
      ensures posts == old(posts) && pages == old(pages) && currentPage == old(currentPage)
      ensures errorMessage == old(errorMessage) && navigations == old(navigations)
    {
      GetPosts(1, POSTS_PAGE_SIZE);
    }

    /** `onPageChange(page)`: exactly that page, of four posts. */
    method OnPageChange(page: int)
      modifies this
      ensures loading
      ensures requests == old(requests) + [(page, POSTS_PAGE_SIZE)]
      ensures posts == old(posts) && pages == old(pages) && currentPage == old(currentPage)
      ensures errorMessage == old(errorMessage) && navigations == old(navigations)
    {
      GetPosts(page, POSTS_PAGE_SIZE);
    }

    /** The success handler of `getPosts(page, pageSize)`. */
    method OnPostsLoaded(data: PaginatedResult<PostDto>, page: int, pageSize: int)
      requires pageSize >= 1
      modifies this
      ensures posts == data.items && !loading
      ensures pages == PageList.Pages(data.totalCount, pageSize)
      ensures currentPage == page
      ensures errorMessage == old(errorMessage) && requests == old(requests) && navigations == old(navigations)
    {
      posts := data.items;
      loading := false;
      pages := PageList.Pages(data.totalCount, pageSize);
      currentPage := page;
    }

    /** The error handler of `getPosts`: reports the failure and goes to the login
        page, keeping the posts and page shown. */
    method OnPostsFailed()
      modifies this
      ensures errorMessage == LOAD_FAILED && !loading
      ensures navigations == old(navigations) + [LOGIN_ROUTE]
      ensures posts == old(posts) && pages == old(pages) && currentPage == old(currentPage)
      ensures requests == old(requests)
    {
      errorMessage := LOAD_FAILED;
      loading := false;
      navigations := navigations + [LOGIN_ROUTE];
    }
  }
}
