/** The menu record that drafts, releases and the bootstrap client share. */
module Menus {
  datatype Menu = Menu(
    id: string,
    applicationId: string,
    parentId: string,
    code: string,
    kind: string,
    name: string,
    i18nKey: string,
    route: string,
    component: string,
    icon: string,
    externalUrl: string,
    permissionCode: string,
    permissionScope: string,
    status: string,
    sortOrder: int,
    visible: bool,
    version: int
  )
}
